/** The `App` component's session state as an object: one field per `useState`
    hook of App.tsx and one method per event handler. Each method performs the
    handler's setter calls on the fields and is specified by the matching
    transition of module Quiz. */
module SessionMachine {
  import opened Types
  import opened Constants
  import opened JsString
  import opened Shuffle
  import Quiz

  class Session {
    var gameState: GameState
    var shuffledAlphabet: seq<string>
    var currentIndex: nat
    var score: nat
    var userGuess: string
    var answerState: AnswerState
    var exampleWord: Option<ExampleWord>
    var isLoadingExample: bool

    /** The fields as one value. */
    ghost function State(): Quiz.SessionState
      reads this
    {
      Quiz.SessionState(gameState, shuffledAlphabet, currentIndex, score, userGuess,
                        answerState, exampleWord, isLoadingExample)
    }

    /** The session invariant: a valid letter order and index, and the score bound. */
    ghost predicate Valid()
      reads this
    {
      Quiz.Invariant(State())
    }

    /** The initial `useState` values: Start screen, no letter order yet. */
    constructor ()
      ensures State() == Quiz.Initial && Valid()
    {
      gameState := Start;
      shuffledAlphabet := [];
      currentIndex := 0;
      score := 0;
      userGuess := "";
      answerState := Unanswered;
      exampleWord := None;
      isLoadingExample := false;
      Quiz.InitialSatisfiesInvariant();
    }

    /** `handleStartQuiz`; `order` stands for the shuffle's random choices. */
    method StartQuiz(order: seq<nat>)
      requires IsIndexPermutation(order, |Alphabet()|)
      modifies this
      ensures State() == Quiz.StartStep(old(State()), order) && Valid()
    {
      shuffledAlphabet := ShuffleArray(Alphabet(), order);
      currentIndex := 0;
      score := 0;
      gameState := Playing;
      userGuess := "";
      answerState := Unanswered;
      exampleWord := None;
      Quiz.StartKeepsInvariant(old(State()), order);
    }

    /** `handleNextLetter`, reachable only while a letter is shown. */
    method NextLetter()
      requires Valid() && gameState == Playing
      modifies this
      ensures State() == Quiz.NextStep(old(State())) && Valid()
    {
      if currentIndex < |Alphabet()| - 1 {
        currentIndex := currentIndex + 1;
        userGuess := "";
        answerState := Unanswered;
        exampleWord := None;
      } else {
        gameState := Finished;
      }
      Quiz.NextKeepsInvariant(old(State()));
    }

    /** The synchronous part of `handleCheckAnswer`, run by the check button and
      by Enter, both shown only while the letter is unanswered. The fetch it
      starts on a match resolves later, as ExampleArrived. */
    method CheckAnswer()
      requires Valid() && gameState == Playing && answerState == Unanswered
      modifies this
      ensures State() == Quiz.CheckStep(old(State())) && Valid()
    {
      Quiz.CheckKeepsInvariant(State());
      if Trim(userGuess) == "" {
        return;
      }
      if Quiz.Matches(userGuess, shuffledAlphabet[currentIndex]) {
        Mark(Correct);
      } else {
        Mark(Incorrect);
      }
    }

    /** The state updates of `handleCheckAnswer` once the guess is judged. */
    method Mark(verdict: AnswerState)
      requires verdict != Unanswered
      modifies this
      ensures State() == old(State()).(score := old(score) + (if verdict == Correct then 1 else 0),
                                       answerState := verdict,
                                       isLoadingExample := old(isLoadingExample) || verdict == Correct)
    {
      if verdict == Correct {
        score := score + 1;
        isLoadingExample := true;
      }
      answerState := verdict;
    }

    /** The continuation of `handleCheckAnswer` once `getExampleWord` resolves,
      with its result (None for `null`). It has no check that the session is
      still on the letter the example was fetched for. */
    method ExampleArrived(example: Option<ExampleWord>)
      requires Valid()
      modifies this
      ensures State() == Quiz.ArriveStep(old(State()), example) && Valid()
    {
      exampleWord := example;
      isLoadingExample := false;
      Quiz.ArriveKeepsInvariant(old(State()), example);
    }

    /** The guess input's `onChange`. */
    method TypeGuess(text: string)
      requires Valid() && gameState == Playing && answerState == Unanswered
      modifies this
      ensures State() == Quiz.TypeStep(old(State()), text) && Valid()
    {
      userGuess := text;
      Quiz.TypeKeepsInvariant(old(State()), text);
    }

    /** `handlePronounce` up to the speech call: the text it would speak, or None
      when it speaks nothing. While a quiz is shown there is always a text. */
    method Pronounce() returns (text: Option<string>)
      requires Valid()
      ensures text == Quiz.PronunciationOf(Quiz.CurrentLetter(shuffledAlphabet, currentIndex))
      ensures gameState != Start ==> text.Some? && text.value != ""
    {
      var letter := Quiz.CurrentLetter(shuffledAlphabet, currentIndex);
      text := Quiz.PronunciationOf(letter);
      if gameState != Start {
        Quiz.PlayingLetterDefined(State());
      }
    }

    /** The Enter key: mark an unanswered letter, move on from an answered one,
      or (re)start from the Start and Finished screens. */
    method OnEnter(order: seq<nat>)
      requires Valid() && IsIndexPermutation(order, |Alphabet()|)
      modifies this
      ensures State() == Quiz.EnterStep(old(State()), order) && Valid()
    {
      if gameState == Playing {
        if answerState == Unanswered {
          CheckAnswer();
        } else {
          NextLetter();
        }
      } else if gameState == Finished || gameState == Start {
        StartQuiz(order);
      }
    }
  }
}
