/**
 * The administrator's view of one submission: the answer shown for each question, whether
 * it is marked correct, the answer texts, the option highlights, and the load checks.
 */
module SubmissionView {
  import opened Base
  import opened Exams
  import opened ClientData
  import ExamDetails

  /** `attempt.answers.find(a => a.questionIndex === index)`. */
  function AnswerFor(answers: seq<ListedAnswer>, index: int): (r: Option<ListedAnswer>)
    ensures r.None? <==> forall a :: a in answers ==> a.questionIndex != Some(index)
    ensures r.Some? ==> r.value in answers && r.value.questionIndex == Some(index)
  {
    if answers == [] then None
    else if answers[0].questionIndex == Some(index) then Some(answers[0])
    else AnswerFor(answers[1..], index)
  }

  /** The answer found is the first entry with that index. */
  lemma {:induction false} AnswerForIsFirst(answers: seq<ListedAnswer>, index: int, i: nat)
    requires i < |answers| && answers[i].questionIndex == Some(index)
    requires forall j :: 0 <= j < i ==> answers[j].questionIndex != Some(index)
    ensures AnswerFor(answers, index) == Some(answers[i])
  {
    if i > 0 {
      AnswerForIsFirst(answers[1..], index, i - 1);
    }
  }

  /**
   * With a duplicated index this view shows the first entry while the review answer map
   * of the exam details page keeps the last one.
   */
  lemma FirstHereLastThere()
    ensures AnswerFor([ListedAnswer(Some(0), Some(1)), ListedAnswer(Some(0), Some(2))], 0).value.selectedOption == Some(1)
    ensures ExamDetails.AnswerMap([ListedAnswer(Some(0), Some(1)), ListedAnswer(Some(0), Some(2))])[0] == Some(2)
  {
    var answers := [ListedAnswer(Some(0), Some(1)), ListedAnswer(Some(0), Some(2))];
    assert answers[..1][..0] == [];
    assert answers[..|answers| - 1] == answers[..1];
  }

  /** `answer?.selectedOption`. */
  function SelectedOf(answer: Option<ListedAnswer>): Option<int> {
    if answer.Some? then answer.value.selectedOption else None
  }

  /** `answer?.selectedOption === question.correctAnswer`. */
  predicate IsCorrect(answer: Option<ListedAnswer>, q: Question) {
    SelectedOf(answer) == q.correctAnswer
  }

  /**
   * A question reads "Correct" when the selected option is the correct one, and also when
   * both are absent; with a correct answer defined, an unanswered question is "Incorrect".
   */
  lemma CorrectnessCases(answer: Option<ListedAnswer>, q: Question)
    ensures IsCorrect(answer, q) <==>
      (answer.Some? && answer.value.selectedOption.Some? && answer.value.selectedOption == q.correctAnswer)
      || (SelectedOf(answer).None? && q.correctAnswer.None?)
    ensures q.correctAnswer.Some? ==> !IsCorrect(None, q)
    ensures q.correctAnswer.None? ==> IsCorrect(None, q)
  {
  }

  /**
   * The student's answer text: the selected option's text, nothing for an index with no
   * option, and "Not Answered" when no option is selected.
   */
  function StudentAnswerText(answer: Option<ListedAnswer>, q: Question): (r: string)
    ensures SelectedOf(answer).None? ==> r == "Not Answered"
    ensures SelectedOf(answer).Some? && 0 <= SelectedOf(answer).value < |q.options| ==> r == q.options[SelectedOf(answer).value]
    ensures SelectedOf(answer).Some? && !(0 <= SelectedOf(answer).value < |q.options|) ==> r == ""
  {
    match SelectedOf(answer)
    case None => "Not Answered"
    case Some(i) => if 0 <= i < |q.options| then q.options[i] else ""
  }

  /** The correct answer's text only when it is defined and in range, otherwise "Not Available". */
  function CorrectAnswerText(q: Question): (r: string)
    ensures q.correctAnswer.Some? && 0 <= q.correctAnswer.value < |q.options| ==> r == q.options[q.correctAnswer.value]
    ensures !(q.correctAnswer.Some? && 0 <= q.correctAnswer.value < |q.options|) ==> r == "Not Available"
  {
    if q.correctAnswer.Some? && 0 <= q.correctAnswer.value < |q.options| then q.options[q.correctAnswer.value]
    else "Not Available"
  }

  /** The highlights of one option. */
  datatype OptionMarks = OptionMarks(correctAnswer: bool, studentAnswer: bool)

  function MarksFor(optIndex: int, q: Question, answer: Option<ListedAnswer>): (r: OptionMarks)
    ensures r.correctAnswer <==> q.correctAnswer == Some(optIndex)
    ensures r.studentAnswer <==> SelectedOf(answer) == Some(optIndex)
  {
    OptionMarks(q.correctAnswer == Some(optIndex), SelectedOf(answer) == Some(optIndex))
  }

  /** Of the options, at most one is marked correct and at most one is marked the student's. */
  lemma MarksUnique(q: Question, answer: Option<ListedAnswer>, i: int, j: int)
    ensures MarksFor(i, q, answer).correctAnswer && MarksFor(j, q, answer).correctAnswer ==> i == j
    ensures MarksFor(i, q, answer).studentAnswer && MarksFor(j, q, answer).studentAnswer ==> i == j
  {
  }

  /** One answer card. */
  datatype Card = Card(number: int, correct: bool, studentAnswer: string, correctAnswer: string)

  /**
   * One card per exam question, in order, numbered from 1. Card i reads correct exactly when
   * the first answer with index i selects the correct option, or when neither a selection
   * nor a correct answer exists; an unselected question reads "Not Answered", and the
   * correct answer's text is shown only when it names an option.
   */
  function Cards(questions: seq<Question>, answers: seq<ListedAnswer>): (r: seq<Card>)
    ensures |r| == |questions|
    ensures forall i :: 0 <= i < |r| ==>
      var selected := SelectedOf(AnswerFor(answers, i));
      var q := questions[i];
      && r[i].number == i + 1
      && (r[i].correct <==> (selected.Some? && selected == q.correctAnswer) || (selected.None? && q.correctAnswer.None?))
      && (selected.None? ==> r[i].studentAnswer == "Not Answered")
      && (selected.Some? && 0 <= selected.value < |q.options| ==> r[i].studentAnswer == q.options[selected.value])
      && (q.correctAnswer.Some? && 0 <= q.correctAnswer.value < |q.options| ==> r[i].correctAnswer == q.options[q.correctAnswer.value])
      && (!(q.correctAnswer.Some? && 0 <= q.correctAnswer.value < |q.options|) ==> r[i].correctAnswer == "Not Available")
  {
    seq(|questions|, i requires 0 <= i < |questions| =>
      Card(i + 1, IsCorrect(AnswerFor(answers, i), questions[i]),
           StudentAnswerText(AnswerFor(answers, i), questions[i]), CorrectAnswerText(questions[i])))
  }

  /** With no answers at all, a card reads "Correct" exactly when its question has no correct answer. */
  lemma EmptySubmission(questions: seq<Question>, i: int)
    requires 0 <= i < |questions|
    ensures Cards(questions, [])[i].correct <==> questions[i].correctAnswer.None?
    ensures Cards(questions, [])[i].studentAnswer == "Not Answered"
  {
  }

  datatype Loaded = LoadFailed(message: string) | Loaded(attempt: ListedAttempt, exam: Exam)

  const NoAttemptId: string := "No attempt ID provided"
  const InvalidExamData: string := "Invalid exam data in attempt"
  const LoadFailedMessage: string := "Failed to load submission details"

  /** `loadSubmission`: the attempt must be named, fetched, and carry a populated exam. */
  function LoadSubmission(attemptId: Option<Id>, fetched: Option<ListedAttempt>): (r: Loaded)
    ensures attemptId.None? ==> r == LoadFailed(NoAttemptId)
    ensures attemptId.Some? && fetched.None? ==> r == LoadFailed(LoadFailedMessage)
    ensures attemptId.Some? && fetched.Some? && !fetched.value.exam.Populated? ==> r == LoadFailed(InvalidExamData)
    ensures r.Loaded? <==> attemptId.Some? && fetched.Some? && fetched.value.exam.Populated?
    ensures r.Loaded? ==> r.attempt == fetched.value && r.exam == fetched.value.exam.exam
  {
    if attemptId.None? then LoadFailed(NoAttemptId)
    else if fetched.None? then LoadFailed(LoadFailedMessage)
    else match fetched.value.exam
      case Populated(e) => Loaded(fetched.value, e)
      case _ => LoadFailed(InvalidExamData)
  }
}
