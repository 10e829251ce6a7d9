/** The quiz session of App.tsx as values: the eight state fields in one record,
    one transition function per event handler, the derived values (current
    letter, pronunciation, final percentage) and what they keep true. The class
    in module SessionMachine performs these transitions on mutable fields. */
module Quiz {
  import opened Types
  import opened Constants
  import opened JsString
  import opened Shuffle

  /** The session fields held in React state (App.tsx:14-21). */
  datatype SessionState = SessionState(
    gameState: GameState,
    shuffledAlphabet: seq<string>,
    currentIndex: nat,
    score: nat,
    userGuess: string,
    answerState: AnswerState,
    exampleWord: Option<ExampleWord>,
    isLoadingExample: bool)

  /** The initial `useState` values. */
  const Initial: SessionState := SessionState(Start, [], 0, 0, "", Unanswered, None, false)

  /** The letter order is a rearrangement of the 26 letters: same length, same
      letters, each once. */
  predicate IsAlphabetPermutation(order: seq<string>) {
    |order| == |Alphabet()| && multiset(order) == multiset(Alphabet())
  }

  /** The letter-order part of the invariant: either no quiz was ever started
      (no letter order, empty guess), or a letter order is fixed and the index
      points into it. */
  predicate OrderValid(s: SessionState) {
    || (s.gameState == Start && s.shuffledAlphabet == [] && s.currentIndex == 0 && s.userGuess == "")
    || (s.gameState != Start && IsAlphabetPermutation(s.shuffledAlphabet) && s.currentIndex < |Alphabet()|)
  }

  /** At most one point per letter reached: letters before the current one, plus
      the current one once it is answered. */
  predicate ScoreBound(s: SessionState) {
    s.score + (if s.answerState == Unanswered then 1 else 0) <= s.currentIndex + 1
  }

  /** What every reachable session satisfies. */
  predicate Invariant(s: SessionState) {
    OrderValid(s) && ScoreBound(s)
  }

  // ---------------------------------------------------------------------------
  // Derived values

  /** `currentLetter`, memoised on the letter order and the index: the letter at
      the index, absent (`undefined`) when the index is outside the order. */
  function CurrentLetter(shuffledAlphabet: seq<string>, currentIndex: nat): (r: Option<string>)
    ensures r.Some? <==> currentIndex < |shuffledAlphabet|
    ensures r.Some? ==> r.value == shuffledAlphabet[currentIndex]
    ensures IsAlphabetPermutation(shuffledAlphabet) && currentIndex < |Alphabet()| ==>
      r.Some? && r.value in Alphabet()
  {
    if currentIndex < |shuffledAlphabet| then
      var letter := shuffledAlphabet[currentIndex];
      assert letter in multiset(shuffledAlphabet);
      Some(letter)
    else
      None
  }

  /** The current letter of a session. */
  function LetterOf(s: SessionState): Option<string> {
    CurrentLetter(s.shuffledAlphabet, s.currentIndex)
  }

  /** The lookup of `handlePronounce`: the text handed to speech synthesis, or
      None when nothing is spoken (no current letter, or no non-empty entry). */
  function PronunciationOf(letter: Option<string>): (r: Option<string>)
    ensures r.Some? ==> letter.Some? && letter.value in Pronunciations && r.value == Pronunciations[letter.value]
    ensures r.Some? ==> r.value != ""
  {
    match letter
    case None => None
    case Some(l) =>
      if l == "" then None
      else if l in Pronunciations && Pronunciations[l] != "" then Some(Pronunciations[l])
      else None
  }

  /** The final-score percentage, `Math.round(score / 26 * 100)`, in integers. */
  function Percentage(score: nat): (r: nat)
    ensures 26 * r - 13 < 100 * score < 26 * r + 13
  {
    var n := 100 * score + 13;
    var r, m := n / 26, n % 26;
    assert n == 26 * r + m && 0 <= m < 26;
    // n is odd, so it is never a multiple of 26: the quotient is never a tie.
    assert m == 2 * (50 * score - 13 * r + 6) + 1;
    r
  }

  /** `Math.round` on an exact value: the integer nearest to x, halves upward. */
  function RoundHalfUp(x: real): int {
    (x + 0.5).Floor
  }

  /** The answer test of `handleCheckAnswer`: trimmed, lower-cased guess equals
      the lower-cased letter. */
  predicate Matches(guess: string, letter: string) {
    ToLower(Trim(guess)) == ToLower(letter)
  }

  // ---------------------------------------------------------------------------
  // Transitions

  /** `handleStartQuiz` with the shuffle's random choices given as `order`. */
  function StartStep(s: SessionState, order: seq<nat>): SessionState
    requires IsIndexPermutation(order, |Alphabet()|)
  {
    var shuffled := ShuffleArray(Alphabet(), order);
    s.(shuffledAlphabet := shuffled,
       currentIndex := 0,
       score := 0,
       gameState := Playing,
       userGuess := "",
       answerState := Unanswered,
       exampleWord := None)
  }

  /** `handleNextLetter`. */
  function NextStep(s: SessionState): SessionState {
    if s.currentIndex < |Alphabet()| - 1 then
      s.(currentIndex := s.currentIndex + 1,
         userGuess := "",
         answerState := Unanswered,
         exampleWord := None)
    else
      s.(gameState := Finished)
  }

  /** The synchronous part of `handleCheckAnswer`, up to the `await`. Under
      OrderValid the current letter exists whenever the trimmed guess is non-empty. */
  function CheckStep(s: SessionState): SessionState
    requires OrderValid(s)
  {
    if Trim(s.userGuess) == "" then s
    else if Matches(s.userGuess, s.shuffledAlphabet[s.currentIndex]) then
      s.(score := s.score + 1, answerState := Correct, isLoadingExample := true)
    else
      s.(answerState := Incorrect)
  }

  /** The continuation of `handleCheckAnswer` after `getExampleWord` resolves,
      with its result (None for `null`). It applies whatever the session is now. */
  function ArriveStep(s: SessionState, example: Option<ExampleWord>): SessionState {
    s.(exampleWord := example, isLoadingExample := false)
  }

  /** The guess input's `onChange`; the input exists only while a letter is
      shown unanswered. */
  function TypeStep(s: SessionState, text: string): SessionState
    requires s.gameState == Playing && s.answerState == Unanswered
  {
    s.(userGuess := text)
  }

  /** The Enter-key dispatch of the keydown listener. */
  function EnterStep(s: SessionState, order: seq<nat>): SessionState
    requires OrderValid(s) && IsIndexPermutation(order, |Alphabet()|)
  {
    match s.gameState
    case Playing => if s.answerState == Unanswered then CheckStep(s) else NextStep(s)
    case Start => StartStep(s, order)
    case Finished => StartStep(s, order)
  }

  // ---------------------------------------------------------------------------
  // Properties

  lemma InitialSatisfiesInvariant()
    ensures Invariant(Initial) && LetterOf(Initial) == None
  {
  }

  /** Every letter of the alphabet has a non-empty pronunciation, and nothing
      else has one. */
  lemma PronounceableIffLetter(l: string)
    ensures PronunciationOf(Some(l)).Some? <==> l in Alphabet()
  {
    PronunciationKeysAreAlphabet();
    PronunciationsNonEmpty();
  }

  /** A letter order holds 26 letters, each one of the alphabet. */
  lemma PermutationLetters(order: seq<string>, i: nat)
    requires IsAlphabetPermutation(order) && i < |Alphabet()|
    ensures |order| == |Alphabet()| && order[i] in Alphabet()
  {
    assert order[i] in multiset(order);
  }

  /** While a quiz is shown, the current letter is defined, is one of the 26
      letters, and has a non-empty pronunciation to speak. */
  lemma PlayingLetterDefined(s: SessionState)
    requires OrderValid(s) && s.gameState != Start
    ensures LetterOf(s).Some? && LetterOf(s).value in Alphabet()
    ensures PronunciationOf(LetterOf(s)).Some?
  {
    PermutationLetters(s.shuffledAlphabet, s.currentIndex);
    PronounceableIffLetter(s.shuffledAlphabet[s.currentIndex]);
  }

  /** Percentage is Math.round of the exact quotient. */
  lemma PercentageIsRounded(score: nat)
    ensures Percentage(score) == RoundHalfUp(score as real / 26.0 * 100.0)
  {
    var r := Percentage(score);
    var x := score as real / 26.0 * 100.0;
    assert 26 * r - 13 < 100 * score < 26 * r + 13;
    assert x == (100 * score) as real / 26.0;
    assert (26 * r - 13) as real / 26.0 < x < (26 * r + 13) as real / 26.0;
    assert r as real <= x + 0.5 < r as real + 1.0;
  }

  /** A full score shows 100%, half the letters 50%, and no score of a session
      shows more than 100%. */
  lemma PercentageExamples(score: nat)
    requires score <= |Alphabet()|
    ensures Percentage(26) == 100 && Percentage(13) == 50 && Percentage(0) == 0
    ensures Percentage(score) <= 100
  {
  }

  /** `handleStartQuiz`: a fresh permutation of the alphabet, index and score
      zero, empty guess, unanswered, no example, Playing; the loading flag is
      left as it was. */
  lemma StartStepResets(s: SessionState, order: seq<nat>)
    requires IsIndexPermutation(order, |Alphabet()|)
    ensures var r := StartStep(s, order);
      && r.gameState == Playing && IsAlphabetPermutation(r.shuffledAlphabet)
      && r.currentIndex == 0 && r.score == 0 && r.userGuess == ""
      && r.answerState == Unanswered && r.exampleWord == None
      && r.isLoadingExample == s.isLoadingExample
      && Invariant(r)
  {
  }

  /** `handleNextLetter`: before the last letter it moves on and clears the
      letter's fields; at the last letter it only finishes the quiz. */
  lemma NextStepEffect(s: SessionState)
    ensures var r := NextStep(s);
      if s.currentIndex < 25 then
        r == s.(currentIndex := s.currentIndex + 1, userGuess := "", answerState := Unanswered, exampleWord := None)
      else
        r == s.(gameState := Finished)
    ensures NextStep(s).currentIndex > s.currentIndex || NextStep(s).gameState == Finished
  {
  }

  /** A guess that is empty or only whitespace changes nothing at all. */
  lemma BlankGuessIgnored(s: SessionState)
    requires OrderValid(s)
    requires forall k :: 0 <= k < |s.userGuess| ==> IsTrimmable(s.userGuess[k])
    ensures CheckStep(s) == s
  {
    TrimEmptyIffBlank(s.userGuess);
  }

  /** A non-blank guess is marked: a match scores exactly one point, sets Correct
      and starts loading an example; a mismatch sets Incorrect and keeps the
      score. Neither touches the index, the letter order or anything else. */
  lemma CheckStepEffect(s: SessionState)
    requires OrderValid(s)
    requires exists k :: 0 <= k < |s.userGuess| && !IsTrimmable(s.userGuess[k])
    ensures LetterOf(s).Some?
    ensures var r := CheckStep(s);
      if Matches(s.userGuess, LetterOf(s).value) then
        r == s.(score := s.score + 1, answerState := Correct, isLoadingExample := true)
      else
        r == s.(answerState := Incorrect)
  {
    assert Trim(s.userGuess) != "" by {
      TrimEmptyIffBlank(s.userGuess);
    }
    CheckStepMarks(s);
  }

  /** Once the trimmed guess is non-empty, a quiz is shown and `CheckStep` marks
      the current letter by the answer test. */
  lemma CheckStepMarks(s: SessionState)
    requires OrderValid(s) && Trim(s.userGuess) != ""
    ensures LetterOf(s).Some?
    ensures var r := CheckStep(s);
      if Matches(s.userGuess, LetterOf(s).value) then
        r == s.(score := s.score + 1, answerState := Correct, isLoadingExample := true)
      else
        r == s.(answerState := Incorrect)
  {
  }

  /** The comparison ignores case and surrounding whitespace and nothing more:
      against a one-letter capital such as every letter of the alphabet, a guess
      matches exactly when it trims to that letter in capital or in small form. */
  lemma MatchesIffSameLetter(guess: string, letter: string)
    requires |letter| == 1 && 'A' <= letter[0] <= 'Z'
    ensures Matches(guess, letter) <==>
      Trim(guess) == letter || Trim(guess) == [(letter[0] as int + 32) as char]
  {
    var t := Trim(guess);
    if Matches(guess, letter) {
      assert |t| == 1;
      LowerCharEqualIff(t[0], letter[0]);
    } else if |t| == 1 {
      LowerCharEqualIff(t[0], letter[0]);
    }
  }

  /** A trimmed guess of two or more characters never matches a letter. */
  lemma LongGuessNeverMatches(guess: string, letter: string)
    requires |letter| == 1 && |Trim(guess)| > 1
    ensures !Matches(guess, letter)
  {
    assert |ToLower(Trim(guess))| != |ToLower(letter)|;
  }

  /** The guess "e" is not blank and matches the letter E. */
  lemma GuessEMatches()
    ensures Trim("e") == "e" && Matches("e", "E")
  {
    TrimKeepsUntrimmed("e");
    assert ToLower("E")[0] == 'e' && ToLower("e")[0] == 'e';
  }

  /** The guess "z" is not blank and does not match the letter E. */
  lemma GuessZMisses()
    ensures Trim("z") == "z" && !Matches("z", "E")
  {
    TrimKeepsUntrimmed("z");
    assert ToLower("E")[0] == 'e' && ToLower("z")[0] == 'z';
  }

  /** With E shown, the guess "e" scores a point and leaves the example as it was. */
  lemma CheckExampleCorrect(s: SessionState)
    requires OrderValid(s) && s.gameState == Playing && LetterOf(s) == Some("E")
    ensures var r := CheckStep(s.(userGuess := "e"));
      r.answerState == Correct && r.score == s.score + 1 && r.exampleWord == s.exampleWord
  {
    GuessEMatches();
  }

  /** With E shown, the guess "z" is marked wrong, keeps the score and leaves the
      example as it was. */
  lemma CheckExampleIncorrect(s: SessionState)
    requires OrderValid(s) && s.gameState == Playing && LetterOf(s) == Some("E")
    ensures var r := CheckStep(s.(userGuess := "z"));
      r.answerState == Incorrect && r.score == s.score && r.exampleWord == s.exampleWord
  {
    GuessZMisses();
  }

  /** The example continuation stores the fetched result, or nothing on a failed
      fetch, and ends loading, changing nothing else. */
  lemma ArriveStepEffect(s: SessionState, example: Option<ExampleWord>)
    ensures var r := ArriveStep(s, example);
      && r.exampleWord == example && !r.isLoadingExample
      && r.(exampleWord := s.exampleWord, isLoadingExample := s.isLoadingExample) == s
  {
  }

  /** The continuation has no guard on the letter: an example fetched for a
      correctly answered letter, arriving after the player moved on, is stored
      as the example of the next, still unanswered letter. */
  lemma LateExampleLands(s: SessionState, e: ExampleWord)
    requires OrderValid(s) && s.gameState == Playing && s.answerState == Correct && s.currentIndex < 25
    ensures var r := ArriveStep(NextStep(s), Some(e));
      && r.currentIndex == s.currentIndex + 1 && r.answerState == Unanswered
      && r.exampleWord == Some(e)
  {
  }

  /** Marking has three outcomes only: nothing, a scored Correct, or Incorrect. */
  lemma CheckStepCases(s: SessionState)
    requires OrderValid(s)
    ensures || CheckStep(s) == s
            || CheckStep(s) == s.(score := s.score + 1, answerState := Correct, isLoadingExample := true)
            || CheckStep(s) == s.(answerState := Incorrect)
  {
  }

  /** The visible case of the missing guard: the fetch for one letter resolves
      after the next letter was also answered correctly. The page then shows the
      earlier letter's example under the later letter's "Correct !" banner. */
  lemma StaleExampleShown(s: SessionState, guess: string, e: ExampleWord)
    requires OrderValid(s) && s.gameState == Playing && s.answerState == Correct
    requires s.currentIndex < |Alphabet()| - 1
    requires Matches(guess, s.shuffledAlphabet[s.currentIndex + 1])
    ensures var r := ArriveStep(CheckStep(TypeStep(NextStep(s), guess)), Some(e));
      && r.currentIndex == s.currentIndex + 1
      && r.answerState == Correct && !r.isLoadingExample
      && r.exampleWord == Some(e)
  {
    NextThenType(s, guess);
    MatchThenArrive(TypeStep(NextStep(s), guess), e);
  }

  /** Moving on from a started quiz and typing a guess shows the next letter,
      unanswered, with that guess. */
  lemma NextThenType(s: SessionState, guess: string)
    requires OrderValid(s) && s.gameState == Playing && s.currentIndex < |Alphabet()| - 1
    ensures NextStep(s).gameState == Playing && NextStep(s).answerState == Unanswered
    ensures var t := TypeStep(NextStep(s), guess);
      && OrderValid(t) && t.currentIndex == s.currentIndex + 1
      && t.shuffledAlphabet == s.shuffledAlphabet && t.userGuess == guess
  {
  }

  /** A matching guess is marked Correct, and the example that then arrives is
      stored with the loading flag cleared. */
  lemma MatchThenArrive(t: SessionState, e: ExampleWord)
    requires OrderValid(t) && t.gameState != Start
    requires Matches(t.userGuess, t.shuffledAlphabet[t.currentIndex])
    ensures var r := ArriveStep(CheckStep(t), Some(e));
      && r.currentIndex == t.currentIndex
      && r.answerState == Correct && !r.isLoadingExample
      && r.exampleWord == Some(e)
  {
    assert Trim(t.userGuess) != "" by {
      var letter := t.shuffledAlphabet[t.currentIndex];
      PermutationLetters(t.shuffledAlphabet, t.currentIndex);
      AlphabetMembers(letter);
      MatchedGuessNotBlank(t.userGuess, letter);
    }
    CheckStepMarks(t);
  }

  /** A guess that passes the answer test against a letter is not blank. */
  lemma MatchedGuessNotBlank(guess: string, letter: string)
    requires letter != "" && Matches(guess, letter)
    ensures Trim(guess) != ""
  {
    assert |ToLower(Trim(guess))| == |ToLower(letter)|;
  }

  /** Starting keeps the invariant, whatever the state before. */
  lemma StartKeepsInvariant(s: SessionState, order: seq<nat>)
    requires IsIndexPermutation(order, |Alphabet()|)
    ensures Invariant(StartStep(s, order))
  {
  }

  /** Moving on keeps the invariant once a quiz was started. */
  lemma NextKeepsInvariant(s: SessionState)
    requires Invariant(s) && s.gameState != Start
    ensures Invariant(NextStep(s))
  {
  }

  /** Marking keeps the letter order valid always, and the score bound when the
      letter is still unanswered, as both of its callers ensure. */
  lemma CheckKeepsInvariant(s: SessionState)
    requires OrderValid(s)
    ensures OrderValid(CheckStep(s))
    ensures ScoreBound(s) && s.answerState == Unanswered ==> ScoreBound(CheckStep(s))
  {
    CheckStepCases(s);
  }

  /** The example continuation keeps the invariant. */
  lemma ArriveKeepsInvariant(s: SessionState, example: Option<ExampleWord>)
    requires Invariant(s)
    ensures Invariant(ArriveStep(s, example))
  {
  }

  /** Typing keeps the invariant. */
  lemma TypeKeepsInvariant(s: SessionState, text: string)
    requires Invariant(s) && s.gameState == Playing && s.answerState == Unanswered
    ensures Invariant(TypeStep(s, text))
  {
  }

  /** Under the Enter-key dispatch the score never exceeds one point per letter
      reached, index and letter order stay within bounds, and while playing
      neither score nor index goes back. */
  lemma EnterKeepsInvariant(s: SessionState, order: seq<nat>)
    requires Invariant(s) && IsIndexPermutation(order, |Alphabet()|)
    ensures Invariant(EnterStep(s, order))
    ensures s.gameState == Playing ==>
      EnterStep(s, order).score >= s.score && EnterStep(s, order).currentIndex >= s.currentIndex
  {
    match s.gameState
    case Playing =>
      if s.answerState == Unanswered {
        CheckKeepsInvariant(s);
        CheckStepCases(s);
      } else {
        NextKeepsInvariant(s);
      }
    case Start => StartKeepsInvariant(s, order);
    case Finished => StartKeepsInvariant(s, order);
  }
}
