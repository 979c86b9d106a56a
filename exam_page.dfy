/**
 * The exam-taking page: client-side grading, the answer formatting sent on submit, and the
 * page state its handlers change (the answer map, navigation, the countdown, the submit
 * guard and the progress saved in browser storage). Server responses and `now` are
 * parameters of the handlers that wait for them.
 */
module ExamPage {
  import opened Base
  import opened Exams
  import opened AttemptSchema
  import opened ClientData
  import Js

  // ---------------------------------------------------------------------------
  // Client-side grading

  /** `question.marks || 1`: a zero (or missing) mark counts as 1. */
  function Weight(q: Question): int {
    if q.marks == 0 then 1 else q.marks
  }

  /**
   * Whether an answer string scores for a question: it is non-empty, the question has a
   * correct answer, and the two agree once both are written as lower-case strings.
   */
  predicate Matches(answer: string, q: Question) {
    answer != "" && q.correctAnswer.Some?
    && Js.Lower(answer) == Js.Lower(Js.NumberToString(q.correctAnswer.value))
  }

  /** What question `i` contributes: its weight when `answers[i]` exists and matches. */
  function ScoreAt(answers: seq<string>, i: int, q: Question): int {
    if 0 <= i < |answers| && Matches(answers[i], q) then Weight(q) else 0
  }

  /** The client score: the contributions of the questions, in order. */
  function ExpectedScore(answers: seq<string>, questions: seq<Question>): int {
    if questions == [] then 0
    else ExpectedScore(answers, questions[..|questions| - 1]) + ScoreAt(answers, |questions| - 1, questions[|questions| - 1])
  }

  /** The sum of the weights of a list of questions: the best client score. */
  function TotalWeight(questions: seq<Question>): int {
    if questions == [] then 0 else TotalWeight(questions[..|questions| - 1]) + Weight(questions[|questions| - 1])
  }

  /** `calculateScore`: 0 when either list is missing, otherwise the loop over the questions. */
  method CalculateScore(answers: Option<seq<string>>, questions: Option<seq<Question>>) returns (totalScore: int)
    ensures answers.None? || questions.None? ==> totalScore == 0
    ensures answers.Some? && questions.Some? ==> totalScore == ExpectedScore(answers.value, questions.value)
  {
    if answers.None? || questions.None? {
      return 0;
    }
    var qs := questions.value;
    totalScore := 0;
    var index := 0;
    while index < |qs|
      invariant 0 <= index <= |qs|
      invariant totalScore == ExpectedScore(answers.value, qs[..index])
    {
      var question := qs[index];
      assert qs[..index + 1][..index] == qs[..index];
      if index < |answers.value| {
        var answer := answers.value[index];
        if answer != "" && question.correctAnswer.Some? {
          var answerStr := Js.Lower(answer);
          var correctAnswerStr := Js.Lower(Js.NumberToString(question.correctAnswer.value));
          if answerStr == correctAnswerStr {
            totalScore := totalScore + Weight(question);
          }
        }
      }
      index := index + 1;
    }
    assert qs[..index] == qs;
  }

  /** Answers beyond the last question are never read. */
  lemma {:induction false} ExtraAnswersIgnored(answers: seq<string>, extra: seq<string>, questions: seq<Question>)
    requires |questions| <= |answers|
    ensures ExpectedScore(answers + extra, questions) == ExpectedScore(answers, questions)
  {
    if questions != [] {
      ExtraAnswersIgnored(answers, extra, questions[..|questions| - 1]);
      assert (answers + extra)[|questions| - 1] == answers[|questions| - 1];
    }
  }

  /** With non-negative marks the client score lies between 0 and the total weight. */
  lemma {:induction false} ScoreBounds(answers: seq<string>, questions: seq<Question>)
    requires forall q :: q in questions ==> q.marks >= 0
    ensures 0 <= ExpectedScore(answers, questions) <= TotalWeight(questions)
  {
    if questions != [] {
      ScoreBounds(answers, questions[..|questions| - 1]);
    }
  }

  /** An answer that is empty or does not start with a digit or minus sign never scores. */
  predicate NonNumeric(answer: string) {
    answer == "" || !Js.IsNumeral(Js.LowerChar(answer[0]))
  }

  /**
   * When every answer string is non-numeric (an option text such as "Paris", or
   * "Not Answered"), the client score is 0, however the answers were chosen.
   */
  lemma {:induction false} TextAnswersNeverScore(answers: seq<string>, questions: seq<Question>)
    requires forall i :: 0 <= i < |answers| ==> NonNumeric(answers[i])
    ensures ExpectedScore(answers, questions) == 0
  {
    if questions != [] {
      TextAnswersNeverScore(answers, questions[..|questions| - 1]);
      var i := |questions| - 1;
      var q := questions[i];
      if 0 <= i < |answers| && answers[i] != "" && q.correctAnswer.Some? {
        Js.NotANumberString(answers[i], q.correctAnswer.value);
      }
    }
  }

  /** The placeholder for an unanswered question never scores. */
  lemma NotAnsweredNeverScores(q: Question)
    ensures !Matches("Not Answered", q)
  {
    if q.correctAnswer.Some? {
      Js.NotANumberString("Not Answered", q.correctAnswer.value);
    }
  }

  /** The comparison is by text: the option text of the right answer scores 0, its index as a string scores. */
  lemma OptionTextQuirk()
    ensures ExpectedScore(["Paris"], [Question("Capital?", ["Paris", "Rome"], Some(0), 2)]) == 0
    ensures ExpectedScore(["0"], [Question("Capital?", ["Paris", "Rome"], Some(0), 2)]) == 2
  {
    var qs := [Question("Capital?", ["Paris", "Rome"], Some(0), 2)];
    assert qs[..0] == [];
    Js.NotANumberString("Paris", 0);
    assert Js.NumberToString(0) == "0";
    assert Js.Lower("0") == "0";
  }

  // ---------------------------------------------------------------------------
  // The submitted answer formatting

  /** One formatted answer entry, as submit builds it for each question. */
  datatype FormattedAnswer = FormattedAnswer(question: int, selectedAnswer: string, isCorrect: bool, marksObtained: int)

  /** The text of the selected option, or "Not Answered" when nothing in range is selected. */
  function SelectedText(q: Question, answerIndex: Option<int>): (r: string)
    ensures answerIndex.Some? && 0 <= answerIndex.value < |q.options| ==> r == q.options[answerIndex.value]
    ensures !(answerIndex.Some? && 0 <= answerIndex.value < |q.options|) ==> r == "Not Answered"
  {
    if answerIndex.Some? && 0 <= answerIndex.value < |q.options| then q.options[answerIndex.value] else "Not Answered"
  }

  /** Exactly one entry per question, in order; correctness compares the selected index with `correctAnswer`. */
  function FormatAnswers(questions: seq<Question>, selected: map<int, int>): (r: seq<FormattedAnswer>)
    ensures |r| == |questions|
    ensures forall i :: 0 <= i < |r| ==>
      && r[i].question == i
      && r[i].selectedAnswer == SelectedText(questions[i], Lookup(selected, i))
      && (r[i].isCorrect <==> Lookup(selected, i) == questions[i].correctAnswer)
      && r[i].marksObtained == (if r[i].isCorrect then questions[i].marks else 0)
  {
    seq(|questions|, i requires 0 <= i < |questions| =>
      var answerIndex := Lookup(selected, i);
      var correct := answerIndex == questions[i].correctAnswer;
      FormattedAnswer(i, SelectedText(questions[i], answerIndex), correct, if correct then questions[i].marks else 0))
  }

  /** The selected texts handed to `calculateScore`. */
  function SelectedTexts(formatted: seq<FormattedAnswer>): (r: seq<string>)
    ensures |r| == |formatted|
    ensures forall i :: 0 <= i < |r| ==> r[i] == formatted[i].selectedAnswer
  {
    seq(|formatted|, i requires 0 <= i < |formatted| => formatted[i].selectedAnswer)
  }

  /** An unanswered question whose correct answer is absent is still formatted as correct. */
  lemma UnansweredWithoutKeyIsCorrect(questions: seq<Question>, selected: map<int, int>, i: int)
    requires 0 <= i < |questions| && i !in selected && questions[i].correctAnswer.None?
    ensures FormatAnswers(questions, selected)[i].isCorrect
    ensures FormatAnswers(questions, selected)[i].marksObtained == questions[i].marks
  {
  }

  /** The submitted score is 0 whatever is selected when no option text starts with a numeral. */
  lemma SubmittedScoreZeroForTextOptions(questions: seq<Question>, selected: map<int, int>)
    requires forall q, o :: q in questions && o in q.options ==> NonNumeric(o)
    ensures ExpectedScore(SelectedTexts(FormatAnswers(questions, selected)), questions) == 0
  {
    var texts := SelectedTexts(FormatAnswers(questions, selected));
    forall i | 0 <= i < |texts|
      ensures NonNumeric(texts[i])
    {
      var answerIndex := Lookup(selected, i);
      if answerIndex.Some? && 0 <= answerIndex.value < |questions[i].options| {
        assert questions[i].options[answerIndex.value] in questions[i].options;
      }
    }
    TextAnswersNeverScore(texts, questions);
  }

  /** One answer of the update request: the question number and the selected text. */
  datatype PayloadAnswer = PayloadAnswer(question: int, selectedAnswer: string)

  /**
   * `selectedAnswer || 'Not Answered'`: one request answer per formatted answer, for the
   * same question; no sent text is empty, and a non-empty text is sent unchanged.
   */
  function PayloadAnswers(formatted: seq<FormattedAnswer>): (r: seq<PayloadAnswer>)
    ensures |r| == |formatted|
    ensures forall i :: 0 <= i < |r| ==> r[i].question == formatted[i].question && r[i].selectedAnswer != ""
    ensures forall i :: 0 <= i < |r| && formatted[i].selectedAnswer != "" ==> r[i].selectedAnswer == formatted[i].selectedAnswer
  {
    seq(|formatted|, i requires 0 <= i < |formatted| =>
      PayloadAnswer(formatted[i].question, if formatted[i].selectedAnswer == "" then "Not Answered" else formatted[i].selectedAnswer))
  }

  /** How the server's answer schema reads the request answers: the unknown keys are dropped. */
  function AsServerAnswers(payload: seq<PayloadAnswer>): (r: seq<AnswerInput>)
    ensures |r| == |payload|
    ensures forall i :: 0 <= i < |r| ==> r[i] == AnswerInput(None, None, None, None)
  {
    seq(|payload|, i requires 0 <= i < |payload| => AnswerInput(None, None, None, None))
  }

  /** The request answers carry no `questionIndex`, so the server refuses any non-empty list of them. */
  lemma PayloadRefusedByServer(payload: seq<PayloadAnswer>)
    requires |payload| > 0
    ensures !AllIndexed(AsServerAnswers(payload))
    ensures CastAnswers(AsServerAnswers(payload)).None?
  {
    assert AsServerAnswers(payload)[0].questionIndex.None?;
  }

  // ---------------------------------------------------------------------------
  // Timing and the review payload

  /** `Math.max(0, Math.floor((end - now) / 1000))`: whole seconds left, never negative. */
  function Remaining(end: int, now: int): (r: nat)
    ensures end - now < 1000 ==> r == 0
    ensures end - now >= 0 ==> 1000 * r <= end - now < 1000 * r + 1000
  {
    var s := (end - now) / 1000;
    if s < 0 then 0 else s
  }

  /** The countdown reaches 0 exactly when less than a second is left. */
  lemma RemainingZero(end: int, now: int)
    ensures Remaining(end, now) == 0 <==> end - now < 1000
  {
  }

  /** The pass label sent to the review page: a fixed cutoff of 40 on the client score. */
  function ReviewStatus(score: int): (r: string)
    ensures r == "Pass" || r == "Fail"
  {
    if score >= 40 then "Pass" else "Fail"
  }

  lemma ReviewStatusCutoff(score: int)
    ensures ReviewStatus(score) == "Pass" <==> score >= 40
  {
  }

  /** The key progress is saved under: `exam_progress_` followed by the exam id, or `null`. */
  function ProgressKey(examId: Option<Id>): (r: string)
    ensures examId.None? ==> r == "exam_progress_null"
  {
    "exam_progress_" + (if examId.Some? then Js.NumberToString(examId.value) else "null")
  }

  /** The signed-in user as the page reads it from storage. */
  datatype UserInfo = UserInfo(id: Option<Id>, name: string, email: string)

  /**
   * The fields of the update request sent for an existing attempt; `endTime` is the
   * submission instant in milliseconds (the request sends it as an ISO date string).
   */
  datatype UpdateData = UpdateData(
    answers: seq<PayloadAnswer>,
    score: int,
    endTime: int,
    status: string,
    answeredQuestions: int,
    timeTaken: int,
    studentName: string,
    studentEmail: string,
    examName: string,
    totalQuestions: int)

  datatype UpdateRequest = UpdateRequest(attemptId: Id, data: UpdateData)

  /** The state handed to the review page. */
  datatype ReviewState = ReviewState(
    attemptId: Id,
    examId: Id,
    score: int,
    status: string,
    examName: string,
    studentName: string,
    totalQuestions: int,
    answeredQuestions: int)

  /** The client score of a selection. */
  function SelectionScore(questions: seq<Question>, selected: map<int, int>): int {
    ExpectedScore(SelectedTexts(FormatAnswers(questions, selected)), questions)
  }

  /**
   * The update request built at instant `now` for an existing attempt; `status` is always
   * `completed`, and the answers are the formatted answers of every question, in order.
   */
  function UpdateDataOf(exam: Exam, questions: seq<Question>, selected: map<int, int>, timeLeft: int, user: UserInfo, now: int): (r: UpdateData)
    ensures r.status == "completed" && r.score == SelectionScore(questions, selected)
    ensures r.endTime == now
    ensures r.studentName == user.name && r.studentEmail == user.email && r.examName == exam.title
    ensures r.answeredQuestions == |selected.Keys| && r.totalQuestions == |questions|
    ensures r.timeTaken == exam.duration * 60 - timeLeft
    ensures r.answers == PayloadAnswers(FormatAnswers(questions, selected))
    ensures |r.answers| == |questions|
    ensures forall i :: 0 <= i < |r.answers| ==> r.answers[i].question == i
  {
    UpdateData(PayloadAnswers(FormatAnswers(questions, selected)), SelectionScore(questions, selected), now, "completed",
               |selected.Keys|, exam.duration * 60 - timeLeft, user.name, user.email, exam.title, |questions|)
  }

  /** The review state after a successful update. */
  function ReviewOf(attemptId: Id, exam: Exam, questions: seq<Question>, selected: map<int, int>, user: UserInfo): (r: ReviewState)
    ensures r.attemptId == attemptId && r.examId == exam.id
    ensures r.examName == exam.title && r.studentName == user.name
    ensures r.score == SelectionScore(questions, selected) && r.status == ReviewStatus(r.score)
    ensures r.answeredQuestions == |selected.Keys| && r.totalQuestions == |questions|
  {
    var score := SelectionScore(questions, selected);
    ReviewState(attemptId, exam.id, score, ReviewStatus(score), exam.title, user.name, |questions|, |selected.Keys|)
  }

  /** `attempt.exam === exam._id`: only a bare id can equal the exam's id; a populated exam never does. */
  predicate RefersTo(ref: ExamRef, id: Id) {
    ref == Reference(id)
  }

  /** `userAttempts.find(attempt => attempt.exam === exam._id)`. */
  function FindByExam(attempts: seq<ListedAttempt>, id: Id): (r: Option<ListedAttempt>)
    ensures r.Some? ==> r.value in attempts && RefersTo(r.value.exam, id)
    ensures r.None? ==> forall a :: a in attempts ==> !RefersTo(a.exam, id)
  {
    if attempts == [] then None
    else if RefersTo(attempts[0].exam, id) then Some(attempts[0])
    else FindByExam(attempts[1..], id)
  }

  /** Attempt listings populate the exam field, so the search for the attempt to update finds nothing. */
  lemma PopulatedNeverFound(attempts: seq<ListedAttempt>, id: Id)
    requires forall a :: a in attempts ==> a.exam.Populated?
    ensures FindByExam(attempts, id).None?
  {
  }

  const SubmitFailed: string := "Failed to submit exam. Please try again."
  const ExamIdMissing: string := "Exam ID is missing."
  const ExamNotAvailable: string := "Exam not available"

  /** Every piece of page state, for stating what a handler changes. */
  datatype SessionState = SessionState(
    questions: seq<Question>,
    exam: Option<Exam>,
    selectedAnswers: map<int, int>,
    currentIndex: int,
    timeLeft: int,
    showModal: bool,
    isSubmitting: bool,
    examStart: Option<int>,
    examEnd: Option<int>,
    error: Option<string>,
    loading: bool,
    review: Option<ReviewState>)

  /**
   * The state of one exam page. `examId` is never set after construction, so progress is
   * always saved under the key built from `null`. `review` records the navigation to the
   * review page.
   */
  class ExamSession {
    var questions: seq<Question>
    var exam: Option<Exam>
    var selectedAnswers: map<int, int>
    var currentIndex: int
    var timeLeft: int
    var showModal: bool
    var isSubmitting: bool
    var examStart: Option<int>
    var examEnd: Option<int>
    var error: Option<string>
    var loading: bool
    var review: Option<ReviewState>
    const examId: Option<Id>
    const storage: LocalStorage

    function State(): SessionState
      reads this
    {
      SessionState(questions, exam, selectedAnswers, currentIndex, timeLeft, showModal, isSubmitting,
                   examStart, examEnd, error, loading, review)
    }

    /** The current index designates a question, or is 0 when there are none. */
    predicate InRange()
      reads this
    {
      0 <= currentIndex && (currentIndex < |questions| || currentIndex == 0)
    }

    constructor (storage: LocalStorage)
      ensures this.storage == storage && examId.None?
      ensures State() == SessionState([], None, map[], 0, 3600, false, false, None, None, None, true, None)
    {
      questions, exam, selectedAnswers, currentIndex, timeLeft := [], None, map[], 0, 3600;
      showModal, isSubmitting, examStart, examEnd, error, loading, review := false, false, None, None, None, true, None;
      examId := None;
      this.storage := storage;
    }

    /** `loadExamData`: refuses a missing id and a missing or inactive exam; otherwise starts the clock. */
    method LoadExamData(stateExamId: Option<Id>, fetched: Option<Exam>, now: int)
      modifies this
      ensures stateExamId.None? ==> State() == old(State()).(error := Some(ExamIdMissing), loading := false)
      ensures stateExamId.Some? && (fetched.None? || !fetched.value.isActive) ==>
        State() == old(State()).(error := Some(ExamNotAvailable), loading := false)
      ensures stateExamId.Some? && fetched.Some? && fetched.value.isActive ==>
        State() == old(State()).(exam := fetched, questions := fetched.value.questions,
          timeLeft := fetched.value.duration * 60, examStart := Some(now),
          examEnd := Some(now + fetched.value.duration * 60000), error := None, loading := false)
    {
      loading, error := true, None;
      if stateExamId.None? {
        error := Some(ExamIdMissing);
      } else if fetched.None? || !fetched.value.isActive {
        error := Some(ExamNotAvailable);
      } else {
        exam := fetched;
        questions := fetched.value.questions;
        timeLeft := fetched.value.duration * 60;
        examStart := Some(now);
        examEnd := Some(now + fetched.value.duration * 60000);
      }
      loading := false;
    }

    /** Selecting an option sets the entry of the current question and no other. */
    method SelectAnswer(answer: int)
      modifies this
      ensures State() == old(State()).(selectedAnswers := old(selectedAnswers)[old(currentIndex) := answer])
    {
      selectedAnswers := selectedAnswers[currentIndex := answer];
    }

    /** Clearing a choice removes that one entry. */
    method ClearChoice(index: int)
      modifies this
      ensures State() == old(State()).(selectedAnswers := old(selectedAnswers) - {index})
    {
      selectedAnswers := selectedAnswers - {index};
    }

    /** Next moves on while there is a next question, and otherwise opens the submit dialog. */
    method Next()
      modifies this
      ensures old(currentIndex) < |old(questions)| - 1 ==> State() == old(State()).(currentIndex := old(currentIndex) + 1)
      ensures old(currentIndex) >= |old(questions)| - 1 ==> State() == old(State()).(showModal := true)
      ensures old(InRange()) ==> InRange()
    {
      if currentIndex < |questions| - 1 {
        currentIndex := currentIndex + 1;
      } else {
        showModal := true;
      }
    }

    /** Prev moves back unless at the first question. */
    method Prev()
      modifies this
      ensures old(currentIndex) > 0 ==> State() == old(State()).(currentIndex := old(currentIndex) - 1)
      ensures old(currentIndex) <= 0 ==> State() == old(State())
      ensures old(InRange()) ==> InRange()
    {
      if currentIndex > 0 {
        currentIndex := currentIndex - 1;
      }
    }

    /** Jumping to a question from the navigation bar. */
    method QuestionClick(index: int)
      modifies this
      ensures State() == old(State()).(currentIndex := index)
      ensures 0 <= index < |questions| ==> InRange()
    {
      currentIndex := index;
    }

    /**
     * The synchronous start of `handleSubmit`: nothing happens while a submission is in
     * flight; otherwise the flag is raised.
     */
    method HandleSubmit() returns (started: bool)
      modifies this
      ensures started <==> !old(isSubmitting)
      ensures State() == old(State()).(isSubmitting := true)
    {
      if isSubmitting {
        return false;
      }
      isSubmitting := true;
      started := true;
    }

    /** One timer tick: nothing before the clock is set; otherwise the countdown, and submit at 0. */
    method Tick(now: int) returns (submitted: bool)
      modifies this
      ensures old(examStart).None? || old(examEnd).None? ==> !submitted && State() == old(State())
      ensures old(examStart).Some? && old(examEnd).Some? ==>
        && (submitted <==> Remaining(old(examEnd).value, now) == 0 && !old(isSubmitting))
        && State() == old(State()).(timeLeft := Remaining(old(examEnd).value, now), isSubmitting := old(isSubmitting) || submitted)
    {
      submitted := false;
      if examStart.None? || examEnd.None? {
        return;
      }
      var remainingTime := Remaining(examEnd.value, now);
      timeLeft := remainingTime;
      if remainingTime == 0 && !isSubmitting {
        submitted := HandleSubmit();
      }
    }

    /** Confirming in the dialog closes it and submits, unless a submission is in flight. */
    method ConfirmSubmit() returns (submitted: bool)
      modifies this
      ensures old(isSubmitting) ==> !submitted && State() == old(State())
      ensures !old(isSubmitting) ==> submitted && State() == old(State()).(showModal := false, isSubmitting := true)
    {
      submitted := false;
      if !isSubmitting {
        showModal := false;
        submitted := HandleSubmit();
      }
    }

    method CancelSubmit()
      modifies this
      ensures State() == old(State()).(showModal := false)
    {
      showModal := false;
    }

    /**
     * The asynchronous rest of `handleSubmit`, given the user read from storage, the
     * caller's attempts as listed by the server, the id the update responds with and
     * the current instant `now`.
     * Only an attempt that refers to the exam by bare id is updated; without one the
     * create branch reads `_id` of `undefined` and fails before any request. The flag is
     * lowered in every case.
     */
    method CompleteSubmit(userInfo: Option<UserInfo>, userAttempts: seq<ListedAttempt>, response: Option<Id>, now: int)
      returns (request: Option<UpdateRequest>)
      modifies this, storage
      ensures request.Some? <==>
        userInfo.Some? && userInfo.value.id.Some? && old(exam).Some? && FindByExam(userAttempts, old(exam).value.id).Some?
      ensures request.Some? ==>
        request.value == UpdateRequest(FindByExam(userAttempts, old(exam).value.id).value.id,
          UpdateDataOf(old(exam).value, old(questions), old(selectedAnswers), old(timeLeft), userInfo.value, now))
      ensures request.Some? && response.Some? ==>
        && State() == old(State()).(isSubmitting := false,
             review := Some(ReviewOf(response.value, old(exam).value, old(questions), old(selectedAnswers), userInfo.value)))
        && storage.items == old(storage.items) - {"questions", "examProgress"}
      ensures !(request.Some? && response.Some?) ==>
        State() == old(State()).(isSubmitting := false, error := Some(SubmitFailed)) && storage.items == old(storage.items)
    {
      request := None;
      if userInfo.None? || userInfo.value.id.None? || exam.None? {
        SubmitFailedState();
        return;
      }
      var formattedAnswers := FormatAnswers(questions, selectedAnswers);
      var score := CalculateScore(Some(SelectedTexts(formattedAnswers)), Some(questions));
      var existingAttempt := FindByExam(userAttempts, exam.value.id);
      if existingAttempt.None? {
        SubmitFailedState();
        return;
      }
      request := Some(UpdateRequest(existingAttempt.value.id,
                                    UpdateDataOf(exam.value, questions, selectedAnswers, timeLeft, userInfo.value, now)));
      if response.None? {
        SubmitFailedState();
        return;
      }
      var reviewState := ReviewOf(response.value, exam.value, questions, selectedAnswers, userInfo.value);
      assert reviewState.score == score;
      SubmitSucceededState(reviewState);
    }

    /** The `catch` and `finally` of a failed submission. */
    method SubmitFailedState()
      modifies this
      ensures State() == old(State()).(isSubmitting := false, error := Some(SubmitFailed))
    {
      error, isSubmitting := Some(SubmitFailed), false;
    }

    /** A successful update: the stored questions and exam progress are removed and the page navigates. */
    method SubmitSucceededState(reviewState: ReviewState)
      modifies this, storage
      ensures State() == old(State()).(isSubmitting := false, review := Some(reviewState))
      ensures storage.items == old(storage.items) - {"questions", "examProgress"}
    {
      storage.RemoveItem("questions");
      storage.RemoveItem("examProgress");
      review := Some(reviewState);
      isSubmitting := false;
    }

    /** `saveProgress`: writes the answers, index and time left under the progress key. */
    method SaveProgress()
      modifies storage
      ensures storage.items == old(storage.items)[ProgressKey(examId) := ProgressItem(selectedAnswers, currentIndex, timeLeft)]
    {
      storage.SetItem(ProgressKey(examId), ProgressItem(selectedAnswers, currentIndex, timeLeft));
    }

    /** `loadSavedProgress`: restores a saved record under the progress key; without one nothing changes. */
    method LoadSavedProgress()
      modifies this
      ensures ProgressKey(examId) in storage.items && storage.items[ProgressKey(examId)].ProgressItem? ==>
        var p := storage.items[ProgressKey(examId)];
        State() == old(State()).(selectedAnswers := p.answers, currentIndex := p.currentQuestionIndex, timeLeft := p.timeLeft)
      ensures !(ProgressKey(examId) in storage.items && storage.items[ProgressKey(examId)].ProgressItem?) ==>
        State() == old(State())
    {
      var key := ProgressKey(examId);
      if key in storage.items && storage.items[key].ProgressItem? {
        var p := storage.items[key];
        selectedAnswers, currentIndex, timeLeft := p.answers, p.currentQuestionIndex, p.timeLeft;
      }
    }
  }

  /** A save followed by edits and a load brings back the saved answers, index and time left. */
  method SaveEditLoad(s: ExamSession, answer: int, now: int)
    modifies s, s.storage
    ensures s.selectedAnswers == old(s.selectedAnswers) && s.currentIndex == old(s.currentIndex) && s.timeLeft == old(s.timeLeft)
  {
    s.SaveProgress();
    s.SelectAnswer(answer);
    s.Next();
    var _ := s.Tick(now);
    s.LoadSavedProgress();
  }

  /**
   * Two exam pages sharing one browser storage save under the same key, so a load on the
   * first page brings back the second page's answers.
   */
  method SharedProgressKey(s1: ExamSession, s2: ExamSession)
    requires s1 != s2 && s1.storage == s2.storage && s1.examId.None? && s2.examId.None?
    modifies s1, s1.storage
    ensures s1.selectedAnswers == old(s2.selectedAnswers) && s1.currentIndex == old(s2.currentIndex)
  {
    s1.SaveProgress();
    s2.SaveProgress();
    s1.LoadSavedProgress();
  }

  /** When the timer submits, a confirmation in the same moment does not submit again. */
  method TimerThenConfirm(s: ExamSession, now: int) returns (byTimer: bool, byClick: bool)
    modifies s
    ensures !(byTimer && byClick)
  {
    byTimer := s.Tick(now);
    byClick := s.ConfirmSubmit();
  }
}
