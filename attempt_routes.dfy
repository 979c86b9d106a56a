/**
 * The attempt routes of the server: an in-memory attempt collection with one method per
 * route handler, each answering an HTTP status code. The exam collection is read-only here
 * and is passed to the handlers that consult it; `now` stands for `new Date()`.
 */
module AttemptRoutes {
  import opened Base
  import opened Exams
  import opened AttemptSchema
  import Js

  /** Whether the authenticated caller's role is `admin`. */
  datatype Role = Admin | Member

  /** The authenticated caller, as the auth middleware provides it. */
  datatype Caller = Caller(id: Id, role: Role)

  const OK: int := 200
  const CREATED: int := 201
  const BAD_REQUEST: int := 400
  const FORBIDDEN: int := 403
  const NOT_FOUND: int := 404
  const SERVER_ERROR: int := 500

  // ---------------------------------------------------------------------------
  // Grading on submit

  /** `exam.questions[answer.questionIndex]`: absent for a missing or out-of-range index. */
  function QuestionAt(questions: seq<Question>, index: Option<int>): (r: Option<Question>)
    ensures r.Some? <==> index.Some? && 0 <= index.value < |questions|
    ensures r.Some? ==> r.value == questions[index.value]
  {
    if index.Some? && 0 <= index.value < |questions| then Some(questions[index.value]) else None
  }

  /** Whether every answer designates a question; otherwise grading raises on `question.marks`. */
  predicate AllDesignate(answers: seq<AnswerInput>, questions: seq<Question>) {
    forall i :: 0 <= i < |answers| ==> QuestionAt(questions, answers[i].questionIndex).Some?
  }

  /** The marks one answer earns: its question's marks when the selected option is the correct one. */
  function Earned(questions: seq<Question>, a: AnswerInput): int {
    match QuestionAt(questions, a.questionIndex)
    case None => 0
    case Some(q) => if a.selectedOption == q.correctAnswer then q.marks else 0
  }

  /** The sum of the marks earned over a list of answers. */
  function TotalScore(answers: seq<AnswerInput>, questions: seq<Question>): int {
    if answers == [] then 0
    else TotalScore(answers[..|answers| - 1], questions) + Earned(questions, answers[|answers| - 1])
  }

  /**
   * The grading loop: walks the submitted answers accumulating the marks of correctly
   * answered questions; it raises at the first answer that designates no question.
   */
  method ScoreAnswers(answers: seq<AnswerInput>, questions: seq<Question>) returns (raised: bool, totalScore: int)
    ensures raised <==> !AllDesignate(answers, questions)
    ensures !raised ==> totalScore == TotalScore(answers, questions)
  {
    totalScore := 0;
    var totalMarks := 0;
    var i := 0;
    while i < |answers|
      invariant 0 <= i <= |answers|
      invariant AllDesignate(answers[..i], questions)
      invariant totalScore == TotalScore(answers[..i], questions)
    {
      var answer := answers[i];
      var question := QuestionAt(questions, answer.questionIndex);
      if question.Some? && answer.selectedOption == question.value.correctAnswer {
        totalScore := totalScore + question.value.marks;
      }
      if question.None? {
        // `question.marks` on an undefined question throws
        raised := true;
        return;
      }
      totalMarks := totalMarks + question.value.marks;
      assert answers[..i + 1][..i] == answers[..i];
      i := i + 1;
    }
    assert answers[..i] == answers;
    raised := false;
  }

  /** Scores add up over concatenated answer lists. */
  lemma {:induction false} TotalScoreAppend(a: seq<AnswerInput>, b: seq<AnswerInput>, questions: seq<Question>)
    ensures TotalScore(a + b, questions) == TotalScore(a, questions) + TotalScore(b, questions)
    decreases |b|
  {
    if b == [] {
      assert a + b == a;
    } else {
      var b' := b[..|b| - 1];
      assert (a + b)[..|a + b| - 1] == a + b';
      TotalScoreAppend(a, b', questions);
    }
  }

  /** With non-negative marks, the score is non-negative and at most the marks of the questions answered. */
  lemma {:induction false} TotalScoreBounds(answers: seq<AnswerInput>, questions: seq<Question>)
    requires forall q :: q in questions ==> q.marks >= 0
    ensures 0 <= TotalScore(answers, questions) <= AttainableMarks(answers, questions)
  {
    if answers != [] {
      TotalScoreBounds(answers[..|answers| - 1], questions);
    }
  }

  /** The marks of the questions an answer list designates, counted once per answer. */
  function AttainableMarks(answers: seq<AnswerInput>, questions: seq<Question>): int {
    if answers == [] then 0
    else
      var last := QuestionAt(questions, answers[|answers| - 1].questionIndex);
      AttainableMarks(answers[..|answers| - 1], questions) + (if last.Some? then last.value.marks else 0)
  }

  /** The answer sheet that picks each question's correct option, one entry per question in order. */
  function KeyAnswers(questions: seq<Question>): (r: seq<AnswerInput>)
    ensures |r| == |questions|
  {
    seq(|questions|, i requires 0 <= i < |questions| => AnswerInput(Some(i), questions[i].correctAnswer, None, None))
  }

  /** The correct answer to every question earns the exam's total marks. */
  lemma PerfectScore(questions: seq<Question>)
    ensures AllDesignate(KeyAnswers(questions), questions)
    ensures TotalScore(KeyAnswers(questions), questions) == TotalMarks(questions)
  {
    PerfectScorePrefix(questions, |questions|);
    assert KeyAnswers(questions)[..|questions|] == KeyAnswers(questions);
    assert questions[..|questions|] == questions;
  }

  lemma {:induction false} PerfectScorePrefix(questions: seq<Question>, k: nat)
    requires k <= |questions|
    ensures TotalScore(KeyAnswers(questions)[..k], questions) == TotalMarks(questions[..k])
  {
    if k > 0 {
      PerfectScorePrefix(questions, k - 1);
      var keys := KeyAnswers(questions);
      assert keys[..k][..k - 1] == keys[..k - 1];
      assert questions[..k][..k - 1] == questions[..k - 1];
      assert keys[k - 1] == AnswerInput(Some(k - 1), questions[k - 1].correctAnswer, None, None);
    }
  }

  /** The final status the grading gives: `Pass` exactly when the score reaches the passing marks. */
  function OutcomeOf(totalScore: int, passingMarks: Option<int>): (s: Status)
    ensures s == Pass || s == Fail
  {
    if Js.Ge(Some(totalScore), passingMarks) then Pass else Fail
  }

  /** Passing is decided by the threshold alone, and an absent threshold never passes. */
  lemma OutcomeThreshold(totalScore: int, passingMarks: Option<int>)
    ensures OutcomeOf(totalScore, passingMarks) == Pass <==> passingMarks.Some? && totalScore >= passingMarks.value
    ensures passingMarks.None? ==> OutcomeOf(totalScore, passingMarks) == Fail
  {
  }

  /** `endTime || new Date()`: a missing or zero end time is falsy and gives way to the clock. */
  function EndTimeOf(endTime: Option<int>, now: int): int {
    if endTime.Some? && endTime.value != 0 then endTime.value else now
  }

  /** `Math.round((end - start) / 60000)`: the elapsed time to the nearest minute. */
  function MinutesTaken(startTime: int, endTime: int): (r: int)
    ensures 2 * 60000 * r - 60000 <= 2 * (endTime - startTime) < 2 * 60000 * r + 60000
  {
    Js.Round(endTime - startTime, 60000)
  }

  /** Whole minutes are reported exactly. */
  lemma MinutesTakenExact(startTime: int, minutes: int)
    ensures MinutesTaken(startTime, startTime + minutes * 60000) == minutes
  {
    var r := MinutesTaken(startTime, startTime + minutes * 60000);
    assert 120000 * r - 60000 <= 120000 * minutes < 120000 * r + 60000;
  }

  /** `Exam.findById(attempt.exam)`: absent when the attempt has no exam or the exam is gone. */
  function ExamOf(exams: map<Id, Exam>, ref: Option<Id>): (r: Option<Exam>)
    ensures r.Some? <==> ref.Some? && ref.value in exams
    ensures r.Some? ==> r.value == exams[ref.value]
  {
    if ref.Some? && ref.value in exams then Some(exams[ref.value]) else None
  }

  /**
   * The submit transition of an attempt, or absent when the handler raises before saving
   * (an answer without a question while grading, or an answer without an index on save).
   * The end time and the minutes taken are always set; when the exam still exists the
   * score is recomputed and the status becomes `Pass` or `Fail`, otherwise the status
   * stays `completed` and the previous score is kept. No other field changes.
   */
  function Submitted(a: Attempt, answers: seq<AnswerInput>, endTime: Option<int>, now: int, exam: Option<Exam>): (r: Option<Attempt>)
    ensures r.Some? <==> AllIndexed(answers) && (exam.Some? ==> AllDesignate(answers, exam.value.questions))
    ensures r.Some? ==>
      var s := r.value;
      && Some(s.answers) == CastAnswers(answers)
      && s.endTime == Some(EndTimeOf(endTime, now))
      && s.timeTaken == Some(MinutesTaken(a.startTime, EndTimeOf(endTime, now)))
      && (exam.None? ==> s.status == Completed && s.score == a.score && s.totalMarksObtained == a.totalMarksObtained)
      && (exam.Some? ==>
            && s.score == Some(TotalScore(answers, exam.value.questions))
            && s.totalMarksObtained == TotalScore(answers, exam.value.questions)
            && (s.status == Pass <==> Js.Ge(s.score, exam.value.passingMarks))
            && (s.status == Pass || s.status == Fail))
      && s.(answers := a.answers, endTime := a.endTime, timeTaken := a.timeTaken, status := a.status,
            score := a.score, totalMarksObtained := a.totalMarksObtained) == a
  {
    if exam.Some? && !AllDesignate(answers, exam.value.questions) then None
    else if !AllIndexed(answers) then None
    else
      var end := EndTimeOf(endTime, now);
      var completed := a.(answers := CastAnswers(answers).value, endTime := Some(end), status := Completed,
                          timeTaken := Some(MinutesTaken(a.startTime, end)));
      if exam.None? then Some(completed)
      else
        var total := TotalScore(answers, exam.value.questions);
        Some(completed.(score := Some(total), totalMarksObtained := total,
                        status := OutcomeOf(total, exam.value.passingMarks)))
  }

  /** The fields a partial update touches: only those present in the request. */
  function Updated(a: Attempt, answers: Option<seq<AnswerInput>>, lastSavedIndex: Option<int>, timeLeft: Option<int>): (r: Attempt)
    requires answers.Some? ==> AllIndexed(answers.value)
    ensures answers.Some? ==> Some(r.answers) == CastAnswers(answers.value)
    ensures answers.None? ==> r.answers == a.answers
    ensures r.lastSavedIndex == lastSavedIndex.GetOr(a.lastSavedIndex)
    ensures r.timeLeft == (if timeLeft.Some? then timeLeft else a.timeLeft)
    ensures r.(answers := a.answers, lastSavedIndex := a.lastSavedIndex, timeLeft := a.timeLeft) == a
  {
    a.(answers := if answers.Some? then CastAnswers(answers.value).value else a.answers,
       lastSavedIndex := lastSavedIndex.GetOr(a.lastSavedIndex),
       timeLeft := if timeLeft.Some? then timeLeft else a.timeLeft)
  }

  /**
   * The guard shared by the progress, update, submit and abandon handlers: 404 for an
   * unknown id, 403 when the caller does not own the attempt, 400 when the attempt is no
   * longer in progress; 0 when the handler may go on.
   */
  function OwnerGuard(attempts: map<Id, Attempt>, caller: Caller, id: Id): (code: int)
    ensures id !in attempts ==> code == NOT_FOUND
    ensures id in attempts && attempts[id].user != caller.id ==> code == FORBIDDEN
    ensures id in attempts && attempts[id].user == caller.id && attempts[id].status != InProgress ==> code == BAD_REQUEST
    ensures code == 0 <==> id in attempts && attempts[id].user == caller.id && attempts[id].status == InProgress
  {
    if id !in attempts then NOT_FOUND
    else if attempts[id].user != caller.id then FORBIDDEN
    else if attempts[id].status != InProgress then BAD_REQUEST
    else 0
  }

  /** The attempt a new start creates. */
  function NewExamAttempt(user: Id, examId: Id, now: int): (r: Attempt)
    ensures r.user == user && r.exam == Some(examId) && r.startTime == now
    ensures r.status == InProgress && r.answers == []
    ensures r.assignment.None? && r.subject.None? && r.endTime.None? && r.score.None?
    ensures r.lastSavedIndex == 0 && r.totalMarksObtained == 0
  {
    Construct(AttemptInput(Some(user), Some(examId), None, None, [], Some(now), None, None, None,
                           Some("in_progress"), None, None, None, None, None, None, None, None)).attempt
  }

  /** The attempt a first assignment-status write creates. */
  function NewAssignmentAttempt(user: Id, assignment: string, subject: string, status: string, now: int): (r: Built)
    ensures r.Valid? <==> status in StatusNames
    ensures r.Valid? ==>
      && r.attempt.user == user && r.attempt.exam.None? && r.attempt.startTime == now
      && r.attempt.assignment == Some(assignment) && r.attempt.subject == Some(subject)
      && r.attempt.status == ParseStatus(status).value && r.attempt.answers == []
  {
    Construct(AttemptInput(Some(user), None, Some(assignment), Some(subject), [], Some(now), None, None, None,
                           Some(status), None, None, None, None, None, None, None, None))
  }

  /** The fields the create handler takes from its body; any others are dropped. */
  function CreateInput(body: AttemptInput): AttemptInput {
    body.(assignment := None, subject := None, totalMarksObtained := None, lastSavedIndex := None, timeLeft := None)
  }

  /** `attempt` is an in-progress attempt of `user` on `examId`. */
  predicate IsOpen(m: map<Id, Attempt>, id: Id, user: Id, examId: Id) {
    id in m && m[id].user == user && m[id].exam == Some(examId) && m[id].status == InProgress
  }

  predicate HasOpen(m: map<Id, Attempt>, user: Id, examId: Id) {
    exists id :: id in m && IsOpen(m, id, user, examId)
  }

  /** Some attempt of `user` on `exam` exists, whatever its status (the create handler's query). */
  predicate AttemptedBefore(m: map<Id, Attempt>, user: Option<Id>, exam: Option<Id>) {
    user.Some? && exists id :: id in m && m[id].user == user.value && m[id].exam == exam
  }

  /** A falsy request field: missing or the empty string. */
  predicate Falsy(s: Option<string>) {
    s.None? || s.value == ""
  }

  /** Attempts on an exam never carry an assignment or subject. */
  ghost predicate ExamAttemptsUnkeyed(m: map<Id, Attempt>) {
    forall id :: id in m && m[id].exam.Some? ==> m[id].assignment.None? && m[id].subject.None?
  }

  /**
   * Under the unique index every exam attempt of a user has the key (user, null, null),
   * so a user holds at most one exam attempt at all, and in particular one open attempt
   * per exam.
   */
  lemma AtMostOneExamAttempt(m: map<Id, Attempt>, i: Id, j: Id)
    requires UniqueKeys(m) && ExamAttemptsUnkeyed(m)
    requires i in m && j in m && m[i].user == m[j].user && m[i].exam.Some? && m[j].exam.Some?
    ensures i == j
  {
    SameKeySameAttempt(m, i, j);
  }

  class AttemptStore {
    var attempts: map<Id, Attempt>
    var nextId: Id

    ghost predicate Valid()
      reads this
    {
      && (forall id :: id in attempts ==> id < nextId)
      && UniqueKeys(attempts)
      && ExamAttemptsUnkeyed(attempts)
    }

    constructor ()
      ensures Valid() && attempts == map[] && nextId == 0
    {
      attempts := map[];
      nextId := 0;
    }

    /** GET /user/:userId — a member may list only their own attempts. */
    method ListByUser(caller: Caller, userId: Id) returns (code: int, result: map<Id, Attempt>)
      ensures caller.role != Admin && caller.id != userId ==> code == FORBIDDEN && result == map[]
      ensures caller.role == Admin || caller.id == userId ==> code == OK
      ensures forall id :: id in result <==> code == OK && id in attempts && attempts[id].user == userId
      ensures forall id :: id in result ==> result[id] == attempts[id]
    {
      if caller.role != Admin && caller.id != userId {
        return FORBIDDEN, map[];
      }
      code := OK;
      result := map id | id in attempts && attempts[id].user == userId :: attempts[id];
    }

    /** GET /exam/:examId — an admin sees every attempt on the exam, a member only their own; never an error. */
    method ListByExam(caller: Caller, examId: Id) returns (code: int, result: map<Id, Attempt>)
      ensures code == OK
      ensures forall id :: id in result <==>
        id in attempts && attempts[id].exam == Some(examId) && (caller.role == Admin || attempts[id].user == caller.id)
      ensures forall id :: id in result ==> result[id] == attempts[id]
    {
      code := OK;
      result := map id | id in attempts && attempts[id].exam == Some(examId)
                         && (caller.role == Admin || attempts[id].user == caller.id) :: attempts[id];
    }

    /** GET /:id — 404 when unknown, 403 unless the caller is an admin or the owner. */
    method GetById(caller: Caller, id: Id) returns (code: int, result: Option<Attempt>)
      ensures id !in attempts ==> code == NOT_FOUND && result.None?
      ensures id in attempts && caller.role != Admin && attempts[id].user != caller.id ==> code == FORBIDDEN && result.None?
      ensures id in attempts && (caller.role == Admin || attempts[id].user == caller.id) ==> code == OK && result == Some(attempts[id])
    {
      if id !in attempts {
        return NOT_FOUND, None;
      }
      if caller.role != Admin && attempts[id].user != caller.id {
        return FORBIDDEN, None;
      }
      return OK, Some(attempts[id]);
    }

    /**
     * POST /start — 400 when the exam is missing or inactive; an open attempt of the caller
     * on the exam is returned unchanged (200); otherwise a new in-progress attempt with no
     * answers is created (201), unless the unique index refuses it (400).
     */
    method Start(caller: Caller, examId: Id, exams: map<Id, Exam>, now: int) returns (code: int, started: Option<Id>)
      requires Valid()
      modifies this
      ensures Valid()
      ensures !(examId in exams && exams[examId].isActive) ==>
        code == BAD_REQUEST && started.None? && attempts == old(attempts) && nextId == old(nextId)
      ensures examId in exams && exams[examId].isActive && HasOpen(old(attempts), caller.id, examId) ==>
        code == OK && started.Some? && IsOpen(old(attempts), started.value, caller.id, examId)
        && attempts == old(attempts) && nextId == old(nextId)
      ensures examId in exams && exams[examId].isActive && !HasOpen(old(attempts), caller.id, examId)
              && KeyTaken(old(attempts), Key(caller.id, None, None)) ==>
        code == BAD_REQUEST && started.None? && attempts == old(attempts) && nextId == old(nextId)
      ensures examId in exams && exams[examId].isActive && !HasOpen(old(attempts), caller.id, examId)
              && !KeyTaken(old(attempts), Key(caller.id, None, None)) ==>
        code == CREATED && started == Some(old(nextId)) && nextId == old(nextId) + 1
        && attempts == old(attempts)[old(nextId) := NewExamAttempt(caller.id, examId, now)]
    {
      if examId !in exams || !exams[examId].isActive {
        return BAD_REQUEST, None;
      }
      if HasOpen(attempts, caller.id, examId) {
        var id :| IsOpen(attempts, id, caller.id, examId);
        return OK, Some(id);
      }
      var attempt := NewExamAttempt(caller.id, examId, now);
      if KeyTaken(attempts, KeyOf(attempt)) {
        // the unique index refuses the insert; the handler answers 400
        return BAD_REQUEST, None;
      }
      InsertKeepsUnique(attempts, nextId, attempt);
      attempts := attempts[nextId := attempt];
      started := Some(nextId);
      nextId := nextId + 1;
      code := CREATED;
    }

    /** POST /:id/progress — overwrites the answers, `lastSavedIndex` and `timeLeft` and nothing else. */
    method SaveProgress(caller: Caller, id: Id, answers: seq<AnswerInput>, currentIndex: int, timeLeft: int) returns (code: int)
      requires Valid()
      modifies this
      ensures Valid() && nextId == old(nextId)
      ensures OwnerGuard(old(attempts), caller, id) != 0 ==>
        code == OwnerGuard(old(attempts), caller, id) && attempts == old(attempts)
      ensures OwnerGuard(old(attempts), caller, id) == 0 && !AllIndexed(answers) ==>
        code == BAD_REQUEST && attempts == old(attempts)
      ensures OwnerGuard(old(attempts), caller, id) == 0 && AllIndexed(answers) ==>
        code == OK && attempts == old(attempts)[id := old(attempts)[id].(
          answers := CastAnswers(answers).value, lastSavedIndex := currentIndex, timeLeft := Some(timeLeft))]
    {
      code := OwnerGuard(attempts, caller, id);
      if code != 0 {
        return;
      }
      var cast := CastAnswers(answers);
      if cast.None? {
        return BAD_REQUEST;
      }
      var saved := attempts[id].(answers := cast.value, lastSavedIndex := currentIndex, timeLeft := Some(timeLeft));
      ReplaceKeepsUnique(attempts, id, saved);
      attempts := attempts[id := saved];
      code := OK;
    }

    /** PUT /:id — applies only the fields present in the request. */
    method Update(caller: Caller, id: Id, answers: Option<seq<AnswerInput>>, lastSavedIndex: Option<int>, timeLeft: Option<int>)
      returns (code: int)
      requires Valid()
      modifies this
      ensures Valid() && nextId == old(nextId)
      ensures OwnerGuard(old(attempts), caller, id) != 0 ==>
        code == OwnerGuard(old(attempts), caller, id) && attempts == old(attempts)
      ensures OwnerGuard(old(attempts), caller, id) == 0 && answers.Some? && !AllIndexed(answers.value) ==>
        code == BAD_REQUEST && attempts == old(attempts)
      ensures OwnerGuard(old(attempts), caller, id) == 0 && (answers.Some? ==> AllIndexed(answers.value)) ==>
        code == OK && attempts == old(attempts)[id := Updated(old(attempts)[id], answers, lastSavedIndex, timeLeft)]
    {
      code := OwnerGuard(attempts, caller, id);
      if code != 0 {
        return;
      }
      if answers.Some? && !AllIndexed(answers.value) {
        return BAD_REQUEST;
      }
      var saved := Updated(attempts[id], answers, lastSavedIndex, timeLeft);
      ReplaceKeepsUnique(attempts, id, saved);
      attempts := attempts[id := saved];
      code := OK;
    }

    /** POST /:id/submit — the terminal transition, graded against the exam when it still exists. */
    method Submit(caller: Caller, id: Id, answers: seq<AnswerInput>, endTime: Option<int>, exams: map<Id, Exam>, now: int)
      returns (code: int)
      requires Valid()
      modifies this
      ensures Valid() && nextId == old(nextId)
      ensures OwnerGuard(old(attempts), caller, id) != 0 ==>
        code == OwnerGuard(old(attempts), caller, id) && attempts == old(attempts)
      ensures OwnerGuard(old(attempts), caller, id) == 0 ==>
        var r := Submitted(old(attempts)[id], answers, endTime, now, ExamOf(exams, old(attempts)[id].exam));
        && (r.None? ==> code == BAD_REQUEST && attempts == old(attempts))
        && (r.Some? ==> code == OK && attempts == old(attempts)[id := r.value])
    {
      code := OwnerGuard(attempts, caller, id);
      if code != 0 {
        return;
      }
      var a := attempts[id];
      var end := EndTimeOf(endTime, now);
      var exam := ExamOf(exams, a.exam);
      var score, totalMarksObtained, status := a.score, a.totalMarksObtained, Completed;
      if exam.Some? {
        var raised, totalScore := ScoreAnswers(answers, exam.value.questions);
        if raised {
          return BAD_REQUEST;
        }
        score, totalMarksObtained := Some(totalScore), totalScore;
        status := if Js.Ge(Some(totalScore), exam.value.passingMarks) then Pass else Fail;
      }
      var cast := CastAnswers(answers);
      if cast.None? {
        // the save fails validation
        return BAD_REQUEST;
      }
      var saved := a.(answers := cast.value, endTime := Some(end), timeTaken := Some(MinutesTaken(a.startTime, end)),
                      score := score, totalMarksObtained := totalMarksObtained, status := status);
      assert Some(saved) == Submitted(a, answers, endTime, now, exam);
      ReplaceKeepsUnique(attempts, id, saved);
      attempts := attempts[id := saved];
      code := OK;
    }

    /** POST /:id/abandon — the other terminal transition. */
    method Abandon(caller: Caller, id: Id) returns (code: int)
      requires Valid()
      modifies this
      ensures Valid() && nextId == old(nextId)
      ensures OwnerGuard(old(attempts), caller, id) != 0 ==>
        code == OwnerGuard(old(attempts), caller, id) && attempts == old(attempts)
      ensures OwnerGuard(old(attempts), caller, id) == 0 ==>
        code == OK && attempts == old(attempts)[id := old(attempts)[id].(status := Abandoned)]
    {
      code := OwnerGuard(attempts, caller, id);
      if code != 0 {
        return;
      }
      var saved := attempts[id].(status := Abandoned);
      ReplaceKeepsUnique(attempts, id, saved);
      attempts := attempts[id := saved];
      code := OK;
    }

    /** DELETE /:id — 404 for an unknown id, otherwise removes exactly that attempt. */
    method Delete(id: Id) returns (code: int)
      requires Valid()
      modifies this
      ensures Valid() && nextId == old(nextId)
      ensures id !in old(attempts) ==> code == NOT_FOUND && attempts == old(attempts)
      ensures id in old(attempts) ==> code == OK && attempts == old(attempts) - {id}
    {
      if id !in attempts {
        return NOT_FOUND;
      }
      attempts := attempts - {id};
      code := OK;
    }

    /**
     * POST /assignment-status — finds the caller's attempt for (assignment, subject) and
     * overwrites its status, or creates one; outside the exam state machine.
     */
    method AssignmentStatusUpsert(caller: Caller, assignmentId: Option<string>, subjectId: Option<string>,
                                  status: Option<string>, now: int) returns (code: int, attempt: Option<Id>)
      requires Valid()
      modifies this
      ensures Valid()
      ensures Falsy(assignmentId) || Falsy(subjectId) || Falsy(status) ==>
        code == BAD_REQUEST && attempt.None? && attempts == old(attempts) && nextId == old(nextId)
      ensures !Falsy(assignmentId) && !Falsy(subjectId) && !Falsy(status) && status.value !in StatusNames ==>
        code == SERVER_ERROR && attempt.None? && attempts == old(attempts) && nextId == old(nextId)
      ensures !Falsy(assignmentId) && !Falsy(subjectId) && !Falsy(status) && status.value in StatusNames
              && KeyTaken(old(attempts), Key(caller.id, assignmentId, subjectId)) ==>
        && code == OK && attempt.Some? && attempt.value in old(attempts) && nextId == old(nextId)
        && KeyOf(old(attempts)[attempt.value]) == Key(caller.id, assignmentId, subjectId)
        && attempts == old(attempts)[attempt.value := old(attempts)[attempt.value].(status := ParseStatus(status.value).value)]
      ensures !Falsy(assignmentId) && !Falsy(subjectId) && !Falsy(status) && status.value in StatusNames
              && !KeyTaken(old(attempts), Key(caller.id, assignmentId, subjectId)) ==>
        && code == OK && attempt == Some(old(nextId)) && nextId == old(nextId) + 1
        && attempts == old(attempts)[old(nextId) :=
             NewAssignmentAttempt(caller.id, assignmentId.value, subjectId.value, status.value, now).attempt]
    {
      if Falsy(assignmentId) || Falsy(subjectId) || Falsy(status) {
        return BAD_REQUEST, None;
      }
      var key := Key(caller.id, assignmentId, subjectId);
      if KeyTaken(attempts, key) {
        var id :| id in attempts && KeyOf(attempts[id]) == key;
        var parsed := ParseStatus(status.value);
        if parsed.None? {
          return SERVER_ERROR, None;
        }
        var saved := attempts[id].(status := parsed.value);
        ReplaceKeepsUnique(attempts, id, saved);
        attempts := attempts[id := saved];
        return OK, Some(id);
      }
      var built := NewAssignmentAttempt(caller.id, assignmentId.value, subjectId.value, status.value, now);
      if built.Invalid? {
        return SERVER_ERROR, None;
      }
      InsertKeepsUnique(attempts, nextId, built.attempt);
      attempts := attempts[nextId := built.attempt];
      attempt := Some(nextId);
      nextId := nextId + 1;
      code := OK;
    }

    /** GET /user-assignments/:subjectId — the caller's attempts on a subject. */
    method ListUserAssignments(caller: Caller, subjectId: string) returns (code: int, result: map<Id, Attempt>)
      ensures code == OK
      ensures forall id :: id in result <==> id in attempts && attempts[id].user == caller.id && attempts[id].subject == Some(subjectId)
      ensures forall id :: id in result ==> result[id] == attempts[id]
    {
      code := OK;
      result := map id | id in attempts && attempts[id].user == caller.id && attempts[id].subject == Some(subjectId) :: attempts[id];
    }

    /**
     * POST / — creates a fully formed attempt; 400 whenever the named user already has an
     * attempt on the named exam, whatever its status, or when validation or the unique
     * index refuses the document.
     */
    method Create(body: AttemptInput) returns (code: int, created: Option<Id>)
      requires Valid()
      modifies this
      ensures Valid()
      ensures AttemptedBefore(old(attempts), body.user, body.exam) ==>
        code == BAD_REQUEST && created.None? && attempts == old(attempts) && nextId == old(nextId)
      ensures !AttemptedBefore(old(attempts), body.user, body.exam) && Construct(CreateInput(body)).Invalid? ==>
        code == BAD_REQUEST && created.None? && attempts == old(attempts) && nextId == old(nextId)
      ensures !AttemptedBefore(old(attempts), body.user, body.exam) && Construct(CreateInput(body)).Valid? ==>
        var a := Construct(CreateInput(body)).attempt;
        && (KeyTaken(old(attempts), KeyOf(a)) ==>
              code == BAD_REQUEST && created.None? && attempts == old(attempts) && nextId == old(nextId))
        && (!KeyTaken(old(attempts), KeyOf(a)) ==>
              code == CREATED && created == Some(old(nextId)) && nextId == old(nextId) + 1
              && attempts == old(attempts)[old(nextId) := a])
    {
      if AttemptedBefore(attempts, body.user, body.exam) {
        return BAD_REQUEST, None;
      }
      var built := Construct(CreateInput(body));
      if built.Invalid? {
        return BAD_REQUEST, None;
      }
      if KeyTaken(attempts, KeyOf(built.attempt)) {
        return BAD_REQUEST, None;
      }
      InsertKeepsUnique(attempts, nextId, built.attempt);
      attempts := attempts[nextId := built.attempt];
      created := Some(nextId);
      nextId := nextId + 1;
      code := CREATED;
    }
  }

  /** Starting twice in a row on an active exam gives back the same attempt the second time. */
  method RepeatedStart(store: AttemptStore, caller: Caller, examId: Id, exams: map<Id, Exam>, t1: int, t2: int)
    returns (first: Option<Id>, second: Option<Id>)
    requires store.Valid()
    modifies store
    ensures examId in exams && exams[examId].isActive && first.Some? ==> second == first
  {
    var c1, c2;
    c1, first := store.Start(caller, examId, exams, t1);
    ghost var afterFirst := store.attempts;
    if first.Some? {
      assert IsOpen(afterFirst, first.value, caller.id, examId);
    }
    c2, second := store.Start(caller, examId, exams, t2);
    if examId in exams && exams[examId].isActive && first.Some? {
      AtMostOneExamAttempt(afterFirst, first.value, second.value);
    }
  }
}
