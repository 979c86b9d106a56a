/**
 * The attempt document: its fields, the status enumeration, required fields and defaults,
 * and the unique (user, assignment, subject) index.
 */
module AttemptSchema {
  import opened Base

  /** The six values the status field admits. */
  datatype Status = InProgress | Completed | Abandoned | Attempted | Pass | Fail

  /** The stored spelling of each status. */
  function StatusName(s: Status): string {
    match s
    case InProgress => "in_progress"
    case Completed => "completed"
    case Abandoned => "abandoned"
    case Attempted => "attempted"
    case Pass => "Pass"
    case Fail => "Fail"
  }

  /** The spellings the enum validator accepts. */
  const StatusNames: set<string> := {"in_progress", "completed", "abandoned", "attempted", "Pass", "Fail"}

  /** The enum validator: a string is a status exactly when it is one of the six spellings. */
  function ParseStatus(name: string): (r: Option<Status>)
    ensures r.Some? <==> name in StatusNames
    ensures r.Some? ==> StatusName(r.value) == name
  {
    if name == "in_progress" then Some(InProgress)
    else if name == "completed" then Some(Completed)
    else if name == "abandoned" then Some(Abandoned)
    else if name == "attempted" then Some(Attempted)
    else if name == "Pass" then Some(Pass)
    else if name == "Fail" then Some(Fail)
    else None
  }

  /** Every status survives being written out and validated again. */
  lemma ParseStatusName(s: Status)
    ensures StatusName(s) in StatusNames
    ensures ParseStatus(StatusName(s)) == Some(s)
  {
  }

  /** The status a document gets when none is given. */
  const DefaultStatus: Status := InProgress

  /** A stored answer entry: `questionIndex` is required, the rest optional. */
  datatype Answer = Answer(
    questionIndex: int,
    selectedOption: Option<int>,
    isCorrect: Option<bool>,
    marksObtained: Option<int>)

  /** An answer entry as a request supplies it, before validation. */
  datatype AnswerInput = AnswerInput(
    questionIndex: Option<int>,
    selectedOption: Option<int>,
    isCorrect: Option<bool>,
    marksObtained: Option<int>)

  /** Whether every entry of a request's answer list carries a question index. */
  predicate AllIndexed(inputs: seq<AnswerInput>) {
    forall i :: 0 <= i < |inputs| ==> inputs[i].questionIndex.Some?
  }

  /** One validated entry. */
  function CastAnswer(a: AnswerInput): Answer
    requires a.questionIndex.Some?
  {
    Answer(a.questionIndex.value, a.selectedOption, a.isCorrect, a.marksObtained)
  }

  /**
   * Validation of an answer list on save: it fails when some entry misses its required
   * `questionIndex`, and otherwise keeps every entry, in order, with its fields.
   */
  function CastAnswers(inputs: seq<AnswerInput>): (r: Option<seq<Answer>>)
    ensures r.Some? <==> AllIndexed(inputs)
    ensures r.Some? ==> |r.value| == |inputs|
    ensures r.Some? ==> forall i :: 0 <= i < |inputs| ==>
      inputs[i].questionIndex == Some(r.value[i].questionIndex) &&
      r.value[i].selectedOption == inputs[i].selectedOption &&
      r.value[i].isCorrect == inputs[i].isCorrect &&
      r.value[i].marksObtained == inputs[i].marksObtained
  {
    if AllIndexed(inputs) then Some(seq(|inputs|, i requires 0 <= i < |inputs| && AllIndexed(inputs) => CastAnswer(inputs[i])))
    else None
  }

  /** A stored answer list written back as a request would carry it. */
  function AsInputs(answers: seq<Answer>): (r: seq<AnswerInput>)
    ensures |r| == |answers|
  {
    seq(|answers|, i requires 0 <= i < |answers| =>
      AnswerInput(Some(answers[i].questionIndex), answers[i].selectedOption, answers[i].isCorrect, answers[i].marksObtained))
  }

  /** Stored answers validate again to themselves. */
  lemma CastAsInputs(answers: seq<Answer>)
    ensures CastAnswers(AsInputs(answers)) == Some(answers)
  {
    var r := CastAnswers(AsInputs(answers));
    assert r.Some?;
    assert |r.value| == |answers|;
    forall i | 0 <= i < |answers| ensures r.value[i] == answers[i] {
      assert AsInputs(answers)[i].questionIndex == Some(answers[i].questionIndex);
    }
    assert r.value == answers;
  }

  /** A stored attempt document. Times are milliseconds; `timeTaken` is in minutes. */
  datatype Attempt = Attempt(
    user: Id,
    exam: Option<Id>,
    assignment: Option<string>,
    subject: Option<string>,
    answers: seq<Answer>,
    startTime: int,
    endTime: Option<int>,
    score: Option<int>,
    totalMarksObtained: int,
    status: Status,
    studentName: Option<string>,
    studentEmail: Option<string>,
    examName: Option<string>,
    totalQuestions: Option<int>,
    answeredQuestions: Option<int>,
    timeTaken: Option<int>,
    lastSavedIndex: int,
    timeLeft: Option<int>)

  /** The fields of a new document as they are handed to the model constructor. */
  datatype AttemptInput = AttemptInput(
    user: Option<Id>,
    exam: Option<Id>,
    assignment: Option<string>,
    subject: Option<string>,
    answers: seq<AnswerInput>,
    startTime: Option<int>,
    endTime: Option<int>,
    score: Option<int>,
    totalMarksObtained: Option<int>,
    status: Option<string>,
    studentName: Option<string>,
    studentEmail: Option<string>,
    examName: Option<string>,
    totalQuestions: Option<int>,
    answeredQuestions: Option<int>,
    timeTaken: Option<int>,
    lastSavedIndex: Option<int>,
    timeLeft: Option<int>)

  /** Why a new document fails validation. */
  datatype ValidationError = UserRequired | StartTimeRequired | InvalidStatus | QuestionIndexRequired

  /** A built document or the reason it was refused. */
  datatype Built = Valid(attempt: Attempt) | Invalid(reason: ValidationError)

  /** What validation demands of a new document. */
  predicate Admissible(input: AttemptInput) {
    && input.user.Some?
    && input.startTime.Some?
    && (input.status.None? || input.status.value in StatusNames)
    && AllIndexed(input.answers)
  }

  /**
   * Building and validating a new document: the required `user` and `startTime`, a
   * status in the enumeration, and a question index on every answer; then the defaults
   * `status = in_progress`, `totalMarksObtained = 0` and `lastSavedIndex = 0` fill absent
   * fields, and every other field is copied as given.
   */
  function Construct(input: AttemptInput): (r: Built)
    ensures r.Valid? <==> Admissible(input)
    ensures r.Valid? ==>
      var a := r.attempt;
      && a.user == input.user.value
      && a.startTime == input.startTime.value
      && Some(a.answers) == CastAnswers(input.answers)
      && a.status == (if input.status.None? then DefaultStatus else ParseStatus(input.status.value).value)
      && a.totalMarksObtained == input.totalMarksObtained.GetOr(0)
      && a.lastSavedIndex == input.lastSavedIndex.GetOr(0)
      && a.exam == input.exam && a.assignment == input.assignment && a.subject == input.subject
      && a.endTime == input.endTime && a.score == input.score && a.timeTaken == input.timeTaken
      && a.timeLeft == input.timeLeft && a.studentName == input.studentName
      && a.studentEmail == input.studentEmail && a.examName == input.examName
      && a.totalQuestions == input.totalQuestions && a.answeredQuestions == input.answeredQuestions
  {
    if input.user.None? then Invalid(UserRequired)
    else if input.startTime.None? then Invalid(StartTimeRequired)
    else if input.status.Some? && ParseStatus(input.status.value).None? then Invalid(InvalidStatus)
    else if CastAnswers(input.answers).None? then Invalid(QuestionIndexRequired)
    else
      var status := if input.status.None? then DefaultStatus else ParseStatus(input.status.value).value;
      Valid(Attempt(
        input.user.value, input.exam, input.assignment, input.subject,
        CastAnswers(input.answers).value, input.startTime.value, input.endTime, input.score,
        input.totalMarksObtained.GetOr(0), status,
        input.studentName, input.studentEmail, input.examName,
        input.totalQuestions, input.answeredQuestions, input.timeTaken,
        input.lastSavedIndex.GetOr(0), input.timeLeft))
  }

  /** A document with only the required fields set gets all the defaults. */
  lemma ConstructDefaults(user: Id, startTime: int)
    ensures var r := Construct(AttemptInput(Some(user), None, None, None, [], Some(startTime),
                                            None, None, None, None, None, None, None, None, None, None, None, None));
      && r.Valid?
      && r.attempt.status == InProgress
      && r.attempt.totalMarksObtained == 0
      && r.attempt.lastSavedIndex == 0
      && r.attempt.answers == []
  {
  }

  /** The key of the unique index; an absent assignment or subject is indexed as null. */
  datatype Key = Key(user: Id, assignment: Option<string>, subject: Option<string>)

  function KeyOf(a: Attempt): Key {
    Key(a.user, a.assignment, a.subject)
  }

  /** The unique index: no two stored attempts share a key. */
  ghost predicate UniqueKeys(m: map<Id, Attempt>) {
    forall i, j :: i in m && j in m && i != j ==> KeyOf(m[i]) != KeyOf(m[j])
  }

  /** Whether some stored attempt already holds a key (an insert with it is refused). */
  predicate KeyTaken(m: map<Id, Attempt>, k: Key) {
    exists i :: i in m && KeyOf(m[i]) == k
  }

  /** Inserting under a fresh id with a free key keeps the index unique. */
  lemma InsertKeepsUnique(m: map<Id, Attempt>, id: Id, a: Attempt)
    requires UniqueKeys(m) && id !in m && !KeyTaken(m, KeyOf(a))
    ensures UniqueKeys(m[id := a])
  {
    var m' := m[id := a];
    forall i, j | i in m' && j in m' && i != j
      ensures KeyOf(m'[i]) != KeyOf(m'[j])
    {
      if i == id {
        assert KeyOf(m[j]) != KeyOf(a);
      } else if j == id {
        assert KeyOf(m[i]) != KeyOf(a);
      }
    }
  }

  /** Saving a document again without touching its key fields keeps the index unique. */
  lemma ReplaceKeepsUnique(m: map<Id, Attempt>, id: Id, a: Attempt)
    requires UniqueKeys(m) && id in m && KeyOf(a) == KeyOf(m[id])
    ensures UniqueKeys(m[id := a])
  {
  }

  /** Under a unique index, two attempts with the same key are the same attempt. */
  lemma {:induction false} SameKeySameAttempt(m: map<Id, Attempt>, i: Id, j: Id)
    requires UniqueKeys(m) && i in m && j in m && KeyOf(m[i]) == KeyOf(m[j])
    ensures i == j
  {
  }
}
