/** The quiz view: its session state machine (start, answer, explanation,
    next question, restart) and the per-option button styling. Calls to
    the question generator and the explanation service are split into a
    synchronous start and a later completion event that carries how the
    call settled. */
module QuizMode {
  import opened Types
  import opened Explanation

  datatype QuizState = Idle | Loading | Playing | Finished

  const NoQuestionsMessage: string := "No questions were generated."
  const UnknownErrorMessage: string := "An unknown error occurred."
  const ExplanationFallback: string := "Could not load flag explanation."

  /** JavaScript truthiness of a `string | null` value: `null` and the
      empty string are the only falsy ones. */
  function Truthy(s: Option<string>): (r: bool)
    ensures !r <==> s == None || s == Some("")
  {
    s.Some? && s.value != ""
  }

  /** The message `startQuiz` records when generation does not yield a
      usable question list. */
  function StartFailureMessage(outcome: Settled<seq<QuizQuestion>>): (m: Option<string>)
    ensures m.None? <==> outcome.Resolved? && outcome.value != []
    ensures outcome == Resolved([]) ==> m == Some(NoQuestionsMessage)
    ensures outcome.Rejected? && outcome.reason.ErrorInstance? ==> m == Some(outcome.reason.message)
    ensures outcome == Rejected(OtherValue) ==> m == Some(UnknownErrorMessage)
  {
    match outcome
    case Resolved(qs) => if qs == [] then Some(NoQuestionsMessage) else None
    case Rejected(ErrorInstance(message)) => Some(message)
    case Rejected(OtherValue) => Some(UnknownErrorMessage)
  }

  /** The text an explanation fetch leaves in `flagExplanation`. */
  function ExplanationText(outcome: Settled<string>): (t: string)
    ensures outcome.Resolved? ==> t == outcome.value
    ensures outcome.Rejected? ==> t == ExplanationFallback
  {
    match outcome
    case Resolved(text) => text
    case Rejected(_) => ExplanationFallback
  }

  /** The look of one answer button once the question is settled. */
  datatype ButtonStyle = Neutral | CorrectHighlight | WrongHighlight | Dimmed

  /** Number of `true` entries. */
  function CountTrue(s: seq<bool>): (n: nat)
    ensures n <= |s|
  {
    if s == [] then 0 else (if s[0] then 1 else 0) + CountTrue(s[1..])
  }

  class QuizSession {
    var quizState: QuizState
    var questions: seq<QuizQuestion>
    var currentQuestionIndex: nat
    var score: nat
    var selectedAnswer: Option<string>
    var isCorrect: Option<bool>
    var error: Option<string>
    var flagExplanation: Option<string>
    var isExplanationLoading: bool
    /** Whether each selection accepted since the last successful start was correct. */
    ghost var verdicts: seq<bool>

    /** What every handler keeps, whatever order the events come in. */
    ghost predicate Valid()
      reads this
    {
      (quizState == Playing ==> questions != [])
      && (questions != [] ==> currentQuestionIndex < |questions|)
      && (selectedAnswer.None? <==> isCorrect.None?)
      && (selectedAnswer.Some? && currentQuestionIndex < |questions| ==>
            isCorrect == Some(selectedAnswer.value == questions[currentQuestionIndex].correctAnswer))
      && score == CountTrue(verdicts)
    }

    /** At most one accepted selection per question reached so far: the
        questions before the current one, and the current one once an
        answer is recorded. */
    ghost predicate ScoreBounded()
      reads this
    {
      |verdicts| <= currentQuestionIndex + (if selectedAnswer.Some? then 1 else 0)
    }

    /** The "Next Question" / "Finish Quiz" control is on screen; in a
        valid session it only appears over a question with a verdict. */
    function NextQuestionOffered(): (r: bool)
      reads this
      ensures r && Valid() ==> currentQuestionIndex < |questions| && isCorrect.Some?
    {
      quizState == Playing && Truthy(selectedAnswer) && !isExplanationLoading
    }

    constructor ()
      ensures Valid() && ScoreBounded()
      ensures quizState == Idle && questions == [] && currentQuestionIndex == 0 && score == 0
      ensures selectedAnswer == None && isCorrect == None && error == None
      ensures flagExplanation == None && !isExplanationLoading
    {
      quizState := Idle;
      questions := [];
      currentQuestionIndex := 0;
      score := 0;
      selectedAnswer := None;
      isCorrect := None;
      error := None;
      flagExplanation := None;
      isExplanationLoading := false;
      verdicts := [];
    }

    /** The synchronous part of `startQuiz`: show the spinner, clear the error. */
    method BeginStartQuiz()
      requires Valid()
      modifies this
      ensures Valid() && (old(ScoreBounded()) ==> ScoreBounded())
      ensures quizState == Loading && error == None
      ensures questions == old(questions) && currentQuestionIndex == old(currentQuestionIndex)
      ensures score == old(score) && selectedAnswer == old(selectedAnswer) && isCorrect == old(isCorrect)
      ensures flagExplanation == old(flagExplanation) && isExplanationLoading == old(isExplanationLoading)
      ensures verdicts == old(verdicts)
    {
      quizState := Loading;
      error := None;
    }

    /** The rest of `startQuiz`, once the generator settled. A non-empty list
        starts play from its first question with a clean slate; an empty
        list or a thrown error goes back to idle with a message and leaves
        the old questions in place. */
    method CompleteStartQuiz(outcome: Settled<seq<QuizQuestion>>)
      requires Valid()
      modifies this
      ensures Valid() && (old(ScoreBounded()) ==> ScoreBounded())
      ensures outcome.Resolved? && outcome.value != [] ==>
        quizState == Playing && questions == outcome.value && currentQuestionIndex == 0 && score == 0
        && selectedAnswer == None && isCorrect == None && flagExplanation == None
        && error == old(error) && isExplanationLoading == old(isExplanationLoading) && verdicts == []
      ensures !(outcome.Resolved? && outcome.value != []) ==>
        quizState == Idle && error == StartFailureMessage(outcome) && error.Some?
        && questions == old(questions) && currentQuestionIndex == old(currentQuestionIndex)
        && score == old(score) && selectedAnswer == old(selectedAnswer) && isCorrect == old(isCorrect)
        && flagExplanation == old(flagExplanation) && isExplanationLoading == old(isExplanationLoading)
        && verdicts == old(verdicts)
    {
      var failure := StartFailureMessage(outcome);
      if failure.None? {
        questions := outcome.value;
        currentQuestionIndex := 0;
        score := 0;
        selectedAnswer := None;
        isCorrect := None;
        flagExplanation := None;
        quizState := Playing;
        verdicts := [];
      } else {
        error := failure;
        quizState := Idle;
      }
    }

    /** What `handleAnswerSelect` does past its guard: record the answer,
        score it, and start fetching the explanation of the correct answer,
        whichever option was chosen. */
    method RecordAnswer(answer: string) returns (request: string)
      requires Valid()
      requires currentQuestionIndex < |questions|
      modifies this
      ensures Valid()
      ensures request == old(questions[currentQuestionIndex].correctAnswer)
      ensures selectedAnswer == Some(answer) && isCorrect == Some(answer == request)
      ensures score == old(score) + (if answer == request then 1 else 0)
      ensures isExplanationLoading && flagExplanation == None
      ensures quizState == old(quizState) && questions == old(questions)
      ensures currentQuestionIndex == old(currentQuestionIndex) && error == old(error)
      ensures verdicts == old(verdicts) + [answer == request]
    {
      request := questions[currentQuestionIndex].correctAnswer;
      var correct := answer == request;
      selectedAnswer := Some(answer);
      isCorrect := Some(correct);
      CountTrueSnoc(verdicts, correct);
      verdicts := verdicts + [correct];
      if correct {
        score := score + 1;
      }
      isExplanationLoading := true;
      flagExplanation := None;
    }

    /** `handleAnswerSelect` as written: the guard is a truthiness test, so
        a recorded empty answer does not lock the question. Returns the
        country whose explanation is requested, if any. */
    method HandleAnswerSelect(answer: string) returns (request: Option<string>)
      requires Valid()
      requires !Truthy(selectedAnswer) ==> currentQuestionIndex < |questions|
      modifies this
      ensures Valid()
      ensures old(Truthy(selectedAnswer)) ==> request == None && unchanged(this)
      ensures !old(Truthy(selectedAnswer)) ==>
        request == Some(old(questions[currentQuestionIndex].correctAnswer))
        && selectedAnswer == Some(answer) && isCorrect == Some(answer == request.value)
        && score == old(score) + (if answer == request.value then 1 else 0)
        && isExplanationLoading && flagExplanation == None
        && quizState == old(quizState) && questions == old(questions)
        && currentQuestionIndex == old(currentQuestionIndex) && error == old(error)
      ensures old(ScoreBounded()) && old(selectedAnswer).None? ==> ScoreBounded()
    {
      if Truthy(selectedAnswer) {
        return None;
      }
      var country := RecordAnswer(answer);
      request := Some(country);
    }

    /** `handleAnswerSelect` with the guard `selectedAnswer !== null`, which
        locks the question after its first selection whatever was chosen. */
    method HandleAnswerSelectOnce(answer: string) returns (request: Option<string>)
      requires Valid()
      requires selectedAnswer.None? ==> currentQuestionIndex < |questions|
      modifies this
      ensures Valid() && (old(ScoreBounded()) ==> ScoreBounded())
      ensures old(selectedAnswer).Some? ==> request == None && unchanged(this)
      ensures old(selectedAnswer).None? ==>
        request == Some(old(questions[currentQuestionIndex].correctAnswer))
        && selectedAnswer == Some(answer) && isCorrect == Some(answer == request.value)
        && score == old(score) + (if answer == request.value then 1 else 0)
        && isExplanationLoading && flagExplanation == None
        && quizState == old(quizState) && questions == old(questions)
        && currentQuestionIndex == old(currentQuestionIndex) && error == old(error)
    {
      if selectedAnswer.Some? {
        return None;
      }
      var country := RecordAnswer(answer);
      request := Some(country);
    }

    /** The explanation fetch of a selection settled: show its text, or the
        fixed fallback when it threw, and stop the spinner. */
    method CompleteExplanation(outcome: Settled<string>)
      requires Valid()
      modifies this
      ensures Valid() && (old(ScoreBounded()) ==> ScoreBounded())
      ensures flagExplanation == Some(ExplanationText(outcome)) && !isExplanationLoading
      ensures quizState == old(quizState) && questions == old(questions)
      ensures currentQuestionIndex == old(currentQuestionIndex) && score == old(score)
      ensures selectedAnswer == old(selectedAnswer) && isCorrect == old(isCorrect) && error == old(error)
      ensures verdicts == old(verdicts)
      ensures old(quizState == Playing && Truthy(selectedAnswer)) ==> NextQuestionOffered()
    {
      flagExplanation := Some(ExplanationText(outcome));
      isExplanationLoading := false;
    }

    /** `handleNextQuestion`: advance by one with a cleared selection while
        questions remain, otherwise finish with index and score as they are. */
    method HandleNextQuestion()
      requires Valid()
      modifies this
      ensures Valid() && (old(ScoreBounded()) ==> ScoreBounded())
      ensures old(currentQuestionIndex) < |old(questions)| - 1 ==>
        currentQuestionIndex == old(currentQuestionIndex) + 1 && quizState == old(quizState)
        && selectedAnswer == None && isCorrect == None && flagExplanation == None
      ensures !(old(currentQuestionIndex) < |old(questions)| - 1) ==>
        quizState == Finished && currentQuestionIndex == old(currentQuestionIndex)
        && selectedAnswer == old(selectedAnswer) && isCorrect == old(isCorrect)
        && flagExplanation == old(flagExplanation)
      ensures questions == old(questions) && score == old(score) && error == old(error)
      ensures isExplanationLoading == old(isExplanationLoading) && verdicts == old(verdicts)
      ensures questions != [] ==> currentQuestionIndex < |questions|
      ensures old(quizState) == Playing ==> questions != []
    {
      if currentQuestionIndex < |questions| - 1 {
        currentQuestionIndex := currentQuestionIndex + 1;
        selectedAnswer := None;
        isCorrect := None;
        flagExplanation := None;
      } else {
        quizState := Finished;
      }
    }

    /** `restartQuiz`: back to idle with no questions and no explanation.
        Index, score, selection and error stay until the next successful start. */
    method RestartQuiz()
      requires Valid()
      modifies this
      ensures Valid() && (old(ScoreBounded()) ==> ScoreBounded())
      ensures quizState == Idle && questions == [] && flagExplanation == None
      ensures currentQuestionIndex == old(currentQuestionIndex) && score == old(score)
      ensures selectedAnswer == old(selectedAnswer) && isCorrect == old(isCorrect)
      ensures error == old(error) && isExplanationLoading == old(isExplanationLoading)
      ensures verdicts == old(verdicts)
    {
      quizState := Idle;
      questions := [];
      flagExplanation := None;
    }

    /** `getButtonClass(option)`: neutral until an answer is recorded; then
        the correct option is highlighted, a wrong chosen option is marked,
        and the rest are dimmed. */
    function ButtonClass(option: string): (r: ButtonStyle)
      reads this
      requires Truthy(selectedAnswer) ==> currentQuestionIndex < |questions|
      ensures r == Neutral <==> !Truthy(selectedAnswer)
      ensures r == CorrectHighlight <==>
        Truthy(selectedAnswer) && option == questions[currentQuestionIndex].correctAnswer
      ensures r == WrongHighlight <==>
        Truthy(selectedAnswer) && option == selectedAnswer.value
        && option != questions[currentQuestionIndex].correctAnswer
    {
      if !Truthy(selectedAnswer) then Neutral
      else if option == questions[currentQuestionIndex].correctAnswer then CorrectHighlight
      else if option == selectedAnswer.value then WrongHighlight
      else Dimmed
    }
  }

  /** Appending one verdict adds one to the count exactly when it is `true`. */
  lemma {:induction false} CountTrueSnoc(s: seq<bool>, b: bool)
    ensures CountTrue(s + [b]) == CountTrue(s) + (if b then 1 else 0)
  {
    if s != [] {
      assert (s + [b])[1..] == s[1..] + [b];
      CountTrueSnoc(s[1..], b);
    }
  }

  /** The score counts the correct selections and is at most one per
      question reached, the current one only once it is answered; so a
      quiz scores at most its length. */
  lemma ScoreAtMostQuestions(session: QuizSession)
    requires session.Valid() && session.ScoreBounded()
    ensures session.score <= session.currentQuestionIndex
                             + (if session.selectedAnswer.Some? then 1 else 0)
    ensures session.questions != [] ==> session.score <= |session.questions|
  {
  }

  /** During play with an answer recorded, an option is marked wrong exactly
      when it is the chosen option and the selection was scored incorrect. */
  lemma WrongMarkMatchesVerdict(session: QuizSession, option: string)
    requires session.Valid() && session.quizState == Playing
    requires Truthy(session.selectedAnswer)
    ensures session.ButtonClass(option) == WrongHighlight <==>
      option == session.selectedAnswer.value && session.isCorrect == Some(false)
  {
  }

  /** With the guard as written, a question whose correct answer is the
      empty string can be scored twice: selecting "" does not lock it. */
  method EmptyAnswerScoredTwice() returns (score: nat, index: nat)
    ensures score == 2 && index == 0
    ensures score > index + 1
  {
    var session := new QuizSession();
    session.BeginStartQuiz();
    session.CompleteStartQuiz(Resolved([QuizQuestion("Atlantis", "at", ["", "Lemuria"], "")]));
    var first := session.HandleAnswerSelect("");
    session.CompleteExplanation(Resolved("# Colors"));
    var second := session.HandleAnswerSelect("");
    assert first.Some? && second.Some?;
    score, index := session.score, session.currentQuestionIndex;
  }

  /** With the null guard the second selection is ignored and the score
      stays at one. */
  method EmptyAnswerScoredOnce() returns (score: nat, index: nat)
    ensures score == 1 && index == 0
  {
    var session := new QuizSession();
    session.BeginStartQuiz();
    session.CompleteStartQuiz(Resolved([QuizQuestion("Atlantis", "at", ["", "Lemuria"], "")]));
    var first := session.HandleAnswerSelectOnce("");
    session.CompleteExplanation(Resolved("# Colors"));
    var second := session.HandleAnswerSelectOnce("");
    assert first.Some? && second.None?;
    score, index := session.score, session.currentQuestionIndex;
  }

  /** With the guard as written, a wrong selection of an empty option does
      not lock the question either: the player can then pick the correct
      option and is scored for it. */
  method EmptyWrongAnswerThenCorrect() returns (score: nat, firstCorrect: bool)
    ensures !firstCorrect && score == 1
  {
    var session := new QuizSession();
    session.BeginStartQuiz();
    session.CompleteStartQuiz(Resolved([QuizQuestion("Atlantis", "at", ["", "Lemuria"], "Lemuria")]));
    var first := session.HandleAnswerSelect("");
    firstCorrect := session.isCorrect == Some(true);
    session.CompleteExplanation(Resolved("# Colors"));
    var second := session.HandleAnswerSelect("Lemuria");
    assert first.Some? && second.Some?;
    score := session.score;
  }
}
