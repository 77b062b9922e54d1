/** The quiz session: the module-level state of the game (the loaded
    questions, the current question set, position, score, the selected
    answer, whether the Next button is disabled, the active screen) and the
    operations that change it. */
module Session {
  import opened Wrappers
  import opened Questions
  import opened Csv
  import opened Shuffle
  import opened Scoring

  /** The screen on show; the results screen carries what it displays. */
  datatype Screen = Welcome | QuizScreen | Results(outcome: Outcome)

  /** Correct answers among the first `|answers|` questions, the i-th answer
      given to the i-th question. */
  function CorrectCount(questions: seq<Question>, answers: seq<Label>): (n: nat)
    requires |answers| <= |questions|
    ensures n <= |answers|
    decreases |answers|
  {
    if answers == [] then 0
    else
      var k := |answers| - 1;
      CorrectCount(questions, answers[..k]) + (if IsCorrect(questions[k], answers[k]) then 1 else 0)
  }

  lemma CorrectCountAppend(questions: seq<Question>, answers: seq<Label>, l: Label)
    requires |answers| < |questions|
    ensures CorrectCount(questions, answers + [l]) ==
      CorrectCount(questions, answers) + (if IsCorrect(questions[|answers|], l) then 1 else 0)
  {
    assert (answers + [l])[..|answers|] == answers;
  }

  /** The question set `startQuiz` draws from `data` for difficulty `d`
      under the oracle `choices`: the matching questions, shuffled, at most
      the first ten. */
  function Selection(data: seq<Question>, d: string, choices: seq<nat>): seq<Question>
    requires ValidChoices(choices, |MatchingDifficulty(data, d)|)
  {
    Truncate(Shuffled(MatchingDifficulty(data, d), choices))
  }

  /** The question set of a session holds only questions of the chosen
      difficulty, at most ten of them and no more than there are, each
      drawn from the loaded questions without repetition. */
  lemma SelectionBounds(data: seq<Question>, d: string, choices: seq<nat>)
    requires ValidChoices(choices, |MatchingDifficulty(data, d)|)
    ensures var matching := MatchingDifficulty(data, d);
      var selected := Selection(data, d, choices);
      |selected| <= 10 && |selected| <= |matching| &&
      multiset(selected) <= multiset(matching) &&
      multiset(selected) <= multiset(data) &&
      forall i :: 0 <= i < |selected| ==> selected[i].difficulty == Some(d)
  {
    var matching := MatchingDifficulty(data, d);
    var selected := Selection(data, d, choices);
    ShuffledPermutes(matching, choices);
    forall i | 0 <= i < |selected|
      ensures selected[i].difficulty == Some(d)
    {
      assert selected[i] in multiset(matching);
    }
    forall q
      ensures multiset(matching)[q] <= multiset(data)[q]
    {
      MatchingDifficultyCount(data, d, q);
    }
  }

  /** `startQuiz`'s selection: filter by difficulty into a new array,
      shuffle it in place, keep at most the first ten. */
  method SelectQuestions(data: seq<Question>, d: string, choices: seq<nat>) returns (selected: seq<Question>)
    requires ValidChoices(choices, |MatchingDifficulty(data, d)|)
    ensures selected == Selection(data, d, choices)
  {
    var matching := MatchingDifficulty(data, d);
    var current := new Question[|matching|];
    forall k | 0 <= k < |matching| {
      current[k] := matching[k];
    }
    assert current[..] == matching;
    ShuffleArray(current, choices);
    if current.Length > 10 {
      selected := current[..10];
    } else {
      selected := current[..];
    }
  }

  class QuizGame {
    var quizData: seq<Question>
    var questions: seq<Question>
    var index: nat
    var score: nat
    var selected: Option<Label>
    var nextDisabled: bool
    var difficulty: string
    var screen: Screen
    /** The label chosen for each question answered so far. */
    ghost var answers: seq<Label>

    /** The session invariant: one recorded answer per question passed plus
        the current one once it is answered; the score counts the correct
        ones; on the quiz screen the current question exists and Next is
        enabled exactly when it has been answered; the results screen shows
        the final outcome. */
    ghost predicate Valid()
      reads this`questions, this`index, this`score, this`selected, this`nextDisabled
      reads this`screen, this`answers
    {
      index <= |questions| &&
      |answers| <= |questions| &&
      |answers| == index + (if selected.Some? && index < |questions| then 1 else 0) &&
      (selected.Some? && index < |questions| ==> answers[index] == selected.value) &&
      score == CorrectCount(questions, answers) &&
      score <= index + (if selected.Some? then 1 else 0) &&
      (screen.QuizScreen? ==> index < |questions| && (nextDisabled <==> selected.None?)) &&
      (screen.Results? ==> index == |questions| && screen.outcome == Finalize(score, |questions|))
    }

    /** The state when the page has loaded: no data yet, the welcome screen. */
    constructor ()
      ensures Valid()
      ensures quizData == [] && questions == [] && index == 0 && score == 0
      ensures selected == None && screen == Welcome && answers == []
    {
      quizData := [];
      questions := [];
      index := 0;
      score := 0;
      selected := None;
      nextDisabled := true;
      difficulty := "";
      screen := Welcome;
      answers := [];
    }

    /** `loadQuizData`: the fetched CSV text, or `None` when fetching it
        failed, in which case the built-in questions are used. */
    method LoadQuizData(fetched: Option<string>)
      requires Valid()
      modifies this`quizData
      ensures Valid()
      ensures fetched.Some? ==> quizData == CsvRecords(fetched.value)
      ensures fetched.None? ==> quizData == FallbackData()
    {
      match fetched
      case Some(text) =>
        quizData := ParseCsv(text);
      case None =>
        quizData := FallbackData();
    }

    /** `startQuiz`: reset position, score and selection, keep the
        questions of difficulty `d`, shuffle them with the oracle `choices`
        and keep the first ten; then show the first question, or the
        results at once when there is none. */
    method StartQuiz(d: string, choices: seq<nat>)
      requires ValidChoices(choices, |MatchingDifficulty(quizData, d)|)
      modifies this
      ensures Valid()
      ensures quizData == old(quizData) && difficulty == d
      ensures questions == Selection(quizData, d, choices)
      ensures index == 0 && score == 0 && selected == None && answers == []
      ensures questions == [] ==> screen == Results(Finalize(0, 0)) && nextDisabled == old(nextDisabled)
      ensures questions != [] ==> screen == QuizScreen && nextDisabled
    {
      var chosen := SelectQuestions(quizData, d, choices);
      difficulty := d;
      index := 0;
      score := 0;
      selected := None;
      answers := [];
      questions := chosen;
      screen := QuizScreen;
      DisplayQuestion();
    }

    /** `displayQuestion`: past the last question, show the results;
        otherwise clear the selection and disable Next. */
    method DisplayQuestion()
      requires index <= |questions| && |answers| == index
      requires score == CorrectCount(questions, answers)
      requires screen.QuizScreen?
      modifies this`screen, this`selected, this`nextDisabled
      ensures Valid()
      ensures index == |questions| ==>
        screen == Results(Finalize(score, |questions|)) &&
        selected == old(selected) && nextDisabled == old(nextDisabled)
      ensures index < |questions| ==> screen == QuizScreen && selected == None && nextDisabled
    {
      if index >= |questions| {
        ShowResults();
        return;
      }
      selected := None;
      nextDisabled := true;
    }

    /** `selectOption`: the first answer to a question wins; it scores one
        point when the chosen option's text equals the correct answer, and
        enables Next. Later choices on the same question change nothing. */
    method SelectOption(option: Label)
      requires Valid() && screen.QuizScreen?
      modifies this`selected, this`score, this`nextDisabled, this`answers
      ensures Valid()
      ensures quizData == old(quizData) && questions == old(questions)
      ensures index == old(index) && screen == old(screen)
      ensures old(selected).Some? ==> unchanged(this)
      ensures old(selected).None? ==>
        selected == Some(option) && !nextDisabled &&
        score == old(score) + (if IsCorrect(questions[index], option) then 1 else 0) &&
        answers == old(answers) + [option]
    {
      if selected.Some? {
        return;
      }
      selected := Some(option);
      var question := questions[index];
      var isCorrect := OptionText(question, option) == question.correctAnswer;
      CorrectCountAppend(questions, answers, option);
      answers := answers + [option];
      if isCorrect {
        score := score + 1;
      }
      nextDisabled := false;
    }

    /** `nextQuestion`: move to the next question, or to the results after
        the last one. Its callers (the Next button, enabled only after an
        answer, and the Enter key guarded by the same flag) only reach it on
        the quiz screen with Next enabled. */
    method NextQuestion()
      requires Valid() && screen.QuizScreen? && !nextDisabled
      modifies this`index, this`screen, this`selected, this`nextDisabled
      ensures Valid()
      ensures index == old(index) + 1
      ensures index == |questions| ==>
        screen == Results(Finalize(score, |questions|)) &&
        selected == old(selected) && nextDisabled == old(nextDisabled)
      ensures index < |questions| ==> screen == QuizScreen && selected == None && nextDisabled
    {
      index := index + 1;
      DisplayQuestion();
    }

    /** The Enter key: advances only on the quiz screen and only while Next
        is enabled, that is, once the current question has been answered. */
    method Advance()
      requires Valid()
      modifies this`index, this`screen, this`selected, this`nextDisabled
      ensures Valid()
      ensures !(old(screen).QuizScreen? && !old(nextDisabled)) ==> unchanged(this)
      ensures old(screen).QuizScreen? && !old(nextDisabled) ==>
        index == old(index) + 1 &&
        (index == |questions| ==>
          screen == Results(Finalize(score, |questions|)) &&
          selected == old(selected) && nextDisabled == old(nextDisabled)) &&
        (index < |questions| ==> screen == QuizScreen && selected == None && nextDisabled)
    {
      if screen.QuizScreen? && !nextDisabled {
        NextQuestion();
      }
    }

    /** `showResults`: the final score out of the number of questions. */
    method ShowResults()
      requires index == |questions|
      modifies this`screen
      ensures screen == Results(Finalize(score, |questions|))
    {
      screen := Results(Finalize(score, |questions|));
    }

    /** `playAgain`: a new session with the same difficulty. */
    method PlayAgain(choices: seq<nat>)
      requires ValidChoices(choices, |MatchingDifficulty(quizData, difficulty)|)
      modifies this
      ensures Valid()
      ensures quizData == old(quizData) && difficulty == old(difficulty)
      ensures questions == Selection(quizData, difficulty, choices)
      ensures index == 0 && score == 0 && selected == None && answers == []
      ensures questions == [] ==> screen == Results(Finalize(0, 0)) && nextDisabled == old(nextDisabled)
      ensures questions != [] ==> screen == QuizScreen && nextDisabled
    {
      StartQuiz(difficulty, choices);
    }

    /** `changeDifficulty`: back to the welcome screen; the finished session
        is left as it was until the next start. */
    method ChangeDifficulty()
      requires Valid()
      modifies this`screen
      ensures Valid() && screen == Welcome
    {
      screen := Welcome;
    }
  }

  /** A whole session driven from the keyboard: start with difficulty `d`,
      then for every question press the key of `l` and then Enter. The
      session ends on the results screen, every question answered once,
      with the outcome of the score out of the question count. */
  method PlayThrough(g: QuizGame, d: string, choices: seq<nat>, l: Label)
    requires ValidChoices(choices, |MatchingDifficulty(g.quizData, d)|)
    modifies g
    ensures g.Valid()
    ensures g.quizData == old(g.quizData) && g.difficulty == d
    ensures g.questions == Selection(g.quizData, d, choices)
    ensures g.index == |g.questions| && |g.answers| == |g.questions|
    ensures forall i :: 0 <= i < |g.answers| ==> g.answers[i] == l
    ensures g.score == CorrectCount(g.questions, g.answers) && g.score <= |g.questions|
    ensures g.screen == Results(Finalize(g.score, |g.questions|))
  {
    g.StartQuiz(d, choices);
    ghost var selection := g.questions;
    while g.index < |g.questions|
      invariant g.Valid()
      invariant g.quizData == old(g.quizData) && g.difficulty == d
      invariant g.questions == selection
      invariant g.index < |g.questions| ==> g.screen == QuizScreen && g.selected == None
      invariant g.index == |g.questions| ==> g.screen == Results(Finalize(g.score, |g.questions|))
      invariant |g.answers| == g.index
      invariant forall i :: 0 <= i < |g.answers| ==> g.answers[i] == l
      decreases |g.questions| - g.index
    {
      g.SelectOption(l);
      g.Advance();
    }
  }
}
