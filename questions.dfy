/** Question records of the animal quiz, the four option labels, the
    difficulty filter and the built-in fallback question set. */
module Questions {
  import opened Wrappers

  /** A field of a question record. `None` stands for JavaScript's
      `undefined`, which a record read from CSV gets in every column its
      header does not have (a header of fewer than seven columns). */
  type Field = Option<string>

  datatype Question = Question(
    difficulty: Field,
    question: Field,
    optionA: Field,
    optionB: Field,
    optionC: Field,
    optionD: Field,
    correctAnswer: Field)

  /** The four answer labels; the keyboard handler and the option buttons
      only ever pass these. */
  datatype Label = A | B | C | D

  /** The text shown on the button with the given label. */
  function OptionText(q: Question, l: Label): Field
  {
    match l
    case A => q.optionA
    case B => q.optionB
    case C => q.optionC
    case D => q.optionD
  }

  /** An answer is correct when its option TEXT equals the recorded correct
      answer (strict equality; `undefined === undefined` holds too). */
  predicate IsCorrect(q: Question, l: Label)
  {
    OptionText(q, l) == q.correctAnswer
  }

  /** A record whose correct answer is a defined text shown on one of its
      four buttons. */
  predicate WellFormed(q: Question)
  {
    q.correctAnswer.Some? && exists l: Label :: IsCorrect(q, l)
  }

  /** The questions whose difficulty is exactly `d`, in their original order. */
  function MatchingDifficulty(data: seq<Question>, d: string): (r: seq<Question>)
    ensures |r| <= |data|
    ensures forall i :: 0 <= i < |r| ==> r[i].difficulty == Some(d)
  {
    if data == [] then []
    else
      var rest := MatchingDifficulty(data[1..], d);
      if data[0].difficulty == Some(d) then [data[0]] + rest else rest
  }

  /** The filter keeps every question of difficulty `d` as often as it
      occurs, and drops every other question. */
  lemma {:induction false} MatchingDifficultyCount(data: seq<Question>, d: string, q: Question)
    ensures multiset(MatchingDifficulty(data, d))[q] ==
            (if q.difficulty == Some(d) then multiset(data)[q] else 0)
  {
    if data != [] {
      MatchingDifficultyCount(data[1..], d, q);
      assert data == [data[0]] + data[1..];
    }
  }

  /** The difficulties offered on the welcome screen. */
  const Difficulties: seq<string> := ["Easy", "Normal", "Hard"]

  /** The question set used when the CSV file cannot be fetched. */
  function FallbackData(): (r: seq<Question>)
    ensures |r| == 4
  {
    [
      Question(Some("Easy"), Some("Which of these animals is the fastest?"),
               Some("Cheetah"), Some("Puma"), Some("Lion"), Some("Wolf"), Some("Cheetah")),
      Question(Some("Easy"), Some("Which of these animals says \"meow\"?"),
               Some("Dog"), Some("Cat"), Some("Cow"), Some("Horse"), Some("Cat")),
      Question(Some("Normal"), Some("Which animal can sleep standing up?"),
               Some("Dog"), Some("Horse"), Some("Giraffe"), Some("Kangaroo"), Some("Horse")),
      Question(Some("Hard"), Some("Which animal is known to be biologically immortal under lab conditions?"),
               Some("Axolotl"), Some("Immortal jellyfish"), Some("Hydra"), Some("Sea sponge"),
               Some("Immortal jellyfish"))
    ]
  }

  /** Every built-in question has a defined correct answer shown on one of
      its buttons. */
  lemma FallbackWellFormed()
    ensures forall i :: 0 <= i < |FallbackData()| ==> WellFormed(FallbackData()[i])
  {
    var r := FallbackData();
    assert IsCorrect(r[0], A) && IsCorrect(r[1], B) && IsCorrect(r[2], B) && IsCorrect(r[3], B);
  }

  /** Every difficulty on the welcome screen finds at least one fallback
      question, so no fallback session starts empty. */
  lemma FallbackCoversDifficulties(d: string)
    requires d in Difficulties
    ensures MatchingDifficulty(FallbackData(), d) != []
  {
    var r := FallbackData();
    var i := if d == "Easy" then 0 else if d == "Normal" then 2 else 3;
    assert r[i].difficulty == Some(d);
    assert r[i] in multiset(r);
    MatchingDifficultyCount(r, d, r[i]);
    assert multiset(MatchingDifficulty(r, d))[r[i]] > 0;
  }
}
